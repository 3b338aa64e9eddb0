/** The initial hash check of a download: chunks of some ranges are submitted in order, a bounded number
    at a time, and answered later. */
module HashTorrents {
  import opened RangeSets

  /** What moves a check on: a chunk was hashed, the retry timer fires, the announced end is delivered. */
  datatype Event = Answer(index: nat, gets: seq<Got>) | Retry(gets: seq<Got>) | End

  /** What the chunk list gives for a chunk: it, or that its file is missing, or an error. */
  datatype Got = Mapped | Missing | NoMemory | Failed(errno: nat)

  /** The internal errors of a check: its retry timer fires when it is not running, or its end is announced
      to an active download, or while chunks are not answered. */
  datatype Error = None | NotRunning | Active | Unanswered

  /** The first announcement that was delivered, and the state of the check it came upon. */
  datatype Delivery = NotYet | At(index: nat, checking: bool, position: nat, outstanding: int)

  /** What was submitted of the chunks before a position: once each, in order, and all but the missing. */
  ghost predicate Ordered(submitted: seq<nat>, missing: set<nat>, position: nat, chunks: set<nat>) {
    && (forall i, j :: 0 <= i < j < |submitted| ==> submitted[i] < submitted[j])
    && (forall x :: x in submitted ==> x < position && x in chunks)
    && (forall x :: x in chunks && x < position ==> x in submitted || x in missing)
    && (forall x :: x in missing ==> x !in submitted && x < position)
  }

  lemma OrderedFurther(submitted: seq<nat>, missing: set<nat>, position: nat, chunks: set<nat>, next: nat)
    requires Ordered(submitted, missing, position, chunks) && position <= next
    requires forall x :: x in chunks ==> !(position <= x < next)
    ensures Ordered(submitted, missing, next, chunks)
  {
  }

  lemma OrderedSubmit(submitted: seq<nat>, missing: set<nat>, position: nat, chunks: set<nat>)
    requires Ordered(submitted, missing, position, chunks) && position in chunks
    ensures Ordered(submitted + [position], missing, position + 1, chunks) && position !in submitted
    ensures Ordered(submitted, missing + {position}, position + 1, chunks)
  {
    assert forall x :: x in submitted + [position] <==> x in submitted || x == position;
    assert forall i :: 0 <= i < |submitted| ==> submitted[i] in submitted;
  }

  /** Chunks submitted after `before` are mapped and in flight, those passed over after `without` have no file. */
  ghost predicate Follows(gets: seq<Got>, before: seq<nat>, without: set<nat>, submitted: seq<nat>, missing: set<nat>,
      pending: set<nat>) {
    && before <= submitted && without <= missing
    && (forall i :: |before| <= i < |submitted| ==>
          submitted[i] < |gets| && gets[submitted[i]].Mapped? && submitted[i] in pending)
    && (forall x :: x in missing && x !in without ==> x < |gets| && gets[x].Missing?)
  }

  lemma FollowsSubmit(gets: seq<Got>, before: seq<nat>, without: set<nat>, submitted: seq<nat>, missing: set<nat>,
      pending: set<nat>, x: nat)
    requires Follows(gets, before, without, submitted, missing, pending) && x < |gets| && gets[x].Mapped?
    ensures Follows(gets, before, without, submitted + [x], missing, pending + {x})
  {
  }

  class HashTorrent {
    const size: nat
    const chunkSize: nat
    const ranges: Ranges
    var position: nat
    var outstanding: int
    var delayChecked: bool       // scheduled
    var delayRetry: bool         // scheduled
    var pending: set<nat>        // in the hash queue: submitted, not answered
    ghost var submitted: seq<nat>
    ghost var missing: set<nat>  // passed over, for lack of a file

    predicate IsChecking() reads this`outstanding { outstanding >= 0 }

    /** The chunks of the ranges. */
    ghost function Chunks(): set<nat> reads ranges { set x | 0 <= x < size && ranges.Contains(x) }

    ghost predicate RangesOk()
      reads ranges
    {
      ranges.Valid() && forall x: nat :: ranges.Contains(x) ==> x < size
    }

    ghost predicate Valid()
      reads this, ranges
    {
      && RangesOk() && position <= size
      && (forall x :: x in pending ==> x in submitted)
      && (if IsChecking() then outstanding == |pending|
           && Ordered(submitted, missing, position, Chunks()) else outstanding == -1 && pending == {})
    }

    /** Why a check is not submitting chunks: it is at the end, or enough are in flight, or the next one
        cannot be had. It is never stuck: an answer is awaited, or a retry, or the end is announced. */
    ghost predicate Live(gets: seq<Got>)
      reads this, ranges
    {
      IsChecking() ==>
        if position >= size then outstanding > 0 || delayChecked
        else || !Few(outstanding)
             || (&& |gets| == size && position in Chunks()
                 && (gets[position].NoMemory? || gets[position].Failed?)
                 && (outstanding > 0 || (gets[position].NoMemory? && delayRetry)))
    }

    /** Since a time with these chunks submitted and missing: just the missing were passed over, and what
        was submitted is not answered yet. */
    ghost predicate Followed(gets: seq<Got>, before: seq<nat>, without: set<nat>)
      reads this`submitted, this`missing, this`pending
    {
      Follows(gets, before, without, submitted, missing, pending)
    }

    /** Something is to come that makes a check go on, or tells of its end. */
    ghost predicate Going()
      reads this
    {
      IsChecking() ==> outstanding > 0 || delayRetry || (delayChecked && position == size)
    }

    /** The retry timer is set only for a running check that waits for nothing else. */
    ghost predicate RetryOk() reads this { delayRetry ==> IsChecking() && outstanding == 0 && position < size }

    /** The end of a check is announced only with every chunk reached and answered. */
    ghost predicate Settled() reads this { IsChecking() && delayChecked ==> position == size && outstanding == 0 }

    /** Every chunk was submitted or has no file. */
    ghost predicate AllReached()
      reads this, ranges
    {
      position == size && forall x :: x in Chunks() ==> x in submitted || x in missing
    }

    constructor (size: nat, chunkSize: nat)
      requires size > 0
      ensures Valid() && !IsChecking() && fresh(ranges) && this.size == size && position == 0
      ensures !delayChecked && !delayRetry
    {
      this.size, this.chunkSize := size, chunkSize;
      position, outstanding, delayChecked, delayRetry := 0, -1, false, false;
      submitted, pending, missing := [], {}, {};
      ranges := new Ranges();
    }

    method Clear()
      requires RangesOk()
      modifies this
      ensures Valid() && !IsChecking() && position == 0 && !delayChecked && !delayRetry
    {
      hide RangesOk, Ordered, Chunks;
      outstanding, position, delayChecked, delayRetry := -1, 0, false, false;
      submitted, pending, missing := [], {}, {};
    }

    /** The throttle on chunks in flight; the product is cut to 32 bits. */
    predicate Enough() reads this { outstanding > 10 && outstanding * chunkSize % 0x1_0000_0000 > 0x800_0000 }

    /** So few chunks in flight that one more may be submitted: ten, or as many as 128 MB hold. */
    ghost predicate Few(n: int) { n <= 10 || n * chunkSize % 0x1_0000_0000 <= 0x800_0000 }

    lemma EnoughIs()
      ensures Enough() <==> !Few(outstanding)
    {
    }

    /** If the product was not cut, not much more than 128 MB is ever in flight. */
    lemma InFlightBound(n: int)
      requires n > 0 && Few(n - 1) && (n - 1) * chunkSize < 0x1_0000_0000
      ensures n <= 11 || n * chunkSize <= 0x800_0000 + chunkSize
    {
      assert n * chunkSize == (n - 1) * chunkSize + chunkSize;
    }

    /** To the next chunk of the ranges, or the end. */
    method Seek()
      requires Valid() && IsChecking() && position < size
      modifies this`position
      ensures Valid() && old(position) <= position && (position < size ==> position in Chunks())
    {
      hide Normal, Member, Ordered;
      var i := ranges.Find(position);
      ranges.Gap(i, position);
      if i == |ranges.items| {
        OrderedFurther(submitted, missing, position, Chunks(), size);
        position := size;
      } else if position < ranges.items[i].first {
        OrderedFurther(submitted, missing, position, Chunks(), ranges.items[i].first);
        position := ranges.items[i].first;
      }
    }

    /** The chunk at the position is handed to the hash queue. */
    method Submit(gets: seq<Got>, ghost before: seq<nat>, ghost without: set<nat>)
      requires Valid() && IsChecking() && position < size && position in Chunks()
      requires |gets| == size && gets[position].Mapped? && Followed(gets, before, without)
      modifies this`position, this`outstanding, this`submitted, this`pending
      ensures Valid() && position == old(position) + 1 && outstanding == old(outstanding) + 1
      ensures submitted == old(submitted) + [old(position)] && pending == old(pending) + {old(position)}
      ensures Followed(gets, before, without)
    {
      hide Ordered, Chunks, RangesOk, Follows;
      OrderedSubmit(submitted, missing, position, Chunks());
      FollowsSubmit(gets, before, without, submitted, missing, pending, position);
      submitted := submitted + [position];
      pending := pending + {position};
      position := position + 1;
      outstanding := outstanding + 1;
    }

    method Skip(gets: seq<Got>, ghost before: seq<nat>, ghost without: set<nat>)
      requires Valid() && IsChecking() && position < size && position in Chunks()
      requires |gets| == size && gets[position].Missing? && Followed(gets, before, without)
      modifies this`position, this`missing
      ensures Valid() && position == old(position) + 1 && missing == old(missing) + {old(position)}
      ensures Followed(gets, before, without)
    {
      hide Ordered, Chunks, RangesOk;
      OrderedSubmit(submitted, missing, position, Chunks());
      missing := missing + {position};
      position := position + 1;
    }

    method SetTimers(checked: bool, retry: bool)
      requires Valid()
      modifies this`delayChecked, this`delayRetry
      ensures Valid() && delayChecked == checked && delayRetry == retry
    {
      hide Ordered, Chunks, RangesOk;
      delayChecked, delayRetry := checked, retry;
    }

    /** A chunk cannot be had now. With nothing in flight, it is tried again later, or the check is given up. */
    method Halt(got: Got)
      requires Valid() && IsChecking() && RangesOk() && (got.NoMemory? || got.Failed?)
      modifies this
      ensures Valid()
      ensures if got.Failed? && old(outstanding) == 0 then !IsChecking() && position == 0 && delayChecked && !delayRetry
              else && outstanding == old(outstanding) && position == old(position) && pending == old(pending)
                   && submitted == old(submitted) && missing == old(missing) && delayChecked == old(delayChecked)
                   && delayRetry == (old(delayRetry) || (got.NoMemory? && outstanding == 0))
    {
      hide Ordered, Chunks, RangesOk, Valid;
      if outstanding != 0 { return; }
      if got.NoMemory? {
        SetTimers(delayChecked, true);
      } else {
        Clear();
        SetTimers(true, false);
      }
    }

    /** Chunks are submitted until there is nothing more to submit, or enough are in flight, or one cannot
        be had now. `gets` is what the chunk list would give for each chunk. */
    method Queue(gets: seq<Got>)
      requires Valid() && IsChecking() && |gets| == size
      modifies this
      ensures Valid() && Live(gets)
      ensures IsChecking() ==>
                old(position) <= position && old(pending) <= pending && Followed(gets, old(submitted), old(missing))
      ensures !IsChecking() ==> position == 0 && old(outstanding) == 0 && delayChecked && FailedAt(gets)
      ensures IsChecking() ==> delayChecked == (old(delayChecked) || (position == size && outstanding == 0))
      ensures (old(Settled()) ==> Settled()) && (!old(delayRetry) ==> RetryOk())
      ensures outstanding > old(outstanding) ==> Few(outstanding - 1)
    {
      hide Ordered, Chunks, RangesOk, Enough, Few, Valid, Followed;
      FollowedNone(gets);
      while position < size
        invariant Valid() && IsChecking()
        invariant old(position) <= position && old(outstanding) <= outstanding && old(pending) <= pending
        invariant Followed(gets, old(submitted), old(missing)) && delayChecked == old(delayChecked)
        invariant old(position) == size ==> outstanding == old(outstanding)
        invariant delayRetry == old(delayRetry)
        invariant outstanding > old(outstanding) ==> Few(outstanding - 1)
        decreases size - position
      {
        EnoughIs();
        if Enough() {
          ManyInFlight();
          return;
        }
        Seek();
        PositionOk();
        if position == size { break; }
        if gets[position].Missing? {
          Skip(gets, old(submitted), old(missing));
        } else if gets[position].Mapped? {
          Submit(gets, old(submitted), old(missing));
        } else {
          Halt(gets[position]);
          return;
        }
      }
      PositionOk();
      if outstanding == 0 { SetTimers(true, delayRetry); }
    }

    /** A chunk of the ranges cannot be mapped. */
    ghost predicate FailedAt(gets: seq<Got>)
      reads ranges
    {
      exists x :: 0 <= x < |gets| && x in Chunks() && gets[x].Failed?
    }

    lemma FollowedNone(gets: seq<Got>)
      ensures Followed(gets, submitted, missing)
    {
    }

    lemma PositionOk()
      requires Valid()
      ensures position <= size && RangesOk()
    {
    }

    lemma ManyInFlight()
      requires Enough()
      ensures outstanding > 10
    {
    }

    /** Without hashing: chunks are passed over as long as their files are missing. */
    method QuickQueue(gets: seq<Got>)
      requires Valid() && outstanding == 0 && |gets| == size
      modifies this
      ensures Valid() && outstanding == 0 && old(position) <= position <= size && submitted == old(submitted)
              && delayRetry == old(delayRetry)
      ensures Followed(gets, old(submitted), old(missing))
      ensures if position < size then position in Chunks() && !gets[position].Missing?
              && delayChecked == old(delayChecked) else delayChecked
    {
      hide Ordered, Chunks, RangesOk, Enough, Valid;
      while position < size
        invariant Valid() && outstanding == 0 && old(position) <= position && submitted == old(submitted)
                  && delayChecked == old(delayChecked) && delayRetry == old(delayRetry)
        invariant Followed(gets, old(submitted), old(missing))
        decreases size - position
      {
        if Enough() {
          ManyInFlight();
          assert false;
        }
        Seek();
        PositionOk();
        if position == size { break; }
        assert outstanding == 0;
        if !gets[position].Missing? { return; }
        Skip(gets, old(submitted), old(missing));
      }
      PositionOk();
      SetTimers(true, delayRetry);
    }

    /** Starts a check. A quick one is done if and only if no chunk has a file, and otherwise stops for good;
        any other one goes on to its end by itself. It is a fault if and only if a check was left half way. */
    method Start(quick: bool, gets: seq<Got>) returns (done: bool, fault: bool)
      requires Valid() && |gets| == size && (IsChecking() ==> position == size)
      modifies this
      ensures Valid() && done == (position == size) && (fault <==> 0 < old(position) < size)
      ensures old(position) > 0 ==> position == old(position) && outstanding == old(outstanding)
      ensures old(position) == 0 < size && IsChecking() ==> Followed(gets, [], {})
      ensures !quick && old(position) == 0 < size && IsChecking() ==>
                Live(gets) && delayChecked == (old(delayChecked) || (position == size && outstanding == 0))
      ensures !quick && old(position) == 0 < size && !IsChecking() ==> position == 0 && delayChecked && FailedAt(gets)
      ensures quick && old(position) == 0 < size ==>
                && outstanding == 0 && submitted == [] && (done <==> NoneHasFile(gets)) && delayRetry == old(delayRetry)
                && delayChecked == (old(delayChecked) || done)
      ensures old(position) == 0 && !old(delayRetry) ==> RetryOk()
    {
      fault := false;
      if position == size { return true, false; }
      if position > 0 { return false, true; }
      Restart();
      if quick { QuickQueue(gets); } else { Queue(gets); }
      done := position == size;
      if quick { QuickIsDone(gets); }
    }

    /** Every chunk of the ranges lacks its file. */
    ghost predicate NoneHasFile(gets: seq<Got>)
      reads ranges
    {
      forall x :: x in Chunks() ==> x < |gets| && gets[x].Missing?
    }

    lemma QuickIsDone(gets: seq<Got>)
      requires Valid() && outstanding == 0 && submitted == [] && Followed(gets, [], {}) && |gets| == size
      requires position < size ==> position in Chunks() && !gets[position].Missing?
      ensures position == size <==> NoneHasFile(gets)
    {
    }

    method Restart()
      requires Valid() && position == 0
      modifies this`outstanding, this`submitted, this`pending, this`missing
      ensures Valid() && outstanding == 0 && submitted == [] && missing == {}
    {
      outstanding := 0;
      submitted, pending, missing := [], {}, {};
    }

    method Answered(index: nat)
      requires Valid() && IsChecking() && index in pending
      modifies this`outstanding, this`pending
      ensures Valid() && IsChecking() && outstanding == old(outstanding) - 1 && pending == old(pending) - {index}
    {
      hide Ordered, Chunks, RangesOk;
      assert outstanding > 0;
      outstanding := outstanding - 1;
      pending := pending - {index};
    }

    /** A submitted chunk was hashed. */
    method ReceiveChunkDone(index: nat, gets: seq<Got>)
      requires Valid() && IsChecking() && index in pending && |gets| == size
      modifies this
      ensures Valid() && Live(gets) && (old(Settled()) ==> Settled()) && (old(RetryOk()) ==> RetryOk())
      ensures old(delayChecked) ==> delayChecked
      ensures IsChecking() ==>
                old(position) <= position && old(pending) - {index} <= pending
                  && Followed(gets, old(submitted), old(missing))
      ensures !IsChecking() ==> position == 0 && delayChecked && FailedAt(gets)
    {
      hide Valid;
      Answered(index);
      Queue(gets);
    }

    /** The retry timer fires. It is a fault if and only if the check is not running. */
    method Retry(gets: seq<Got>) returns (fault: bool)
      requires Valid() && delayRetry && |gets| == size
      modifies this
      ensures Valid() && (fault <==> !old(IsChecking())) && (old(delayChecked) ==> delayChecked)
      ensures fault ==> !IsChecking() && position == old(position) && !delayRetry && delayChecked == old(delayChecked)
      ensures fault ==> submitted == old(submitted) && missing == old(missing)
      ensures !fault ==> Live(gets) && RetryOk() && (old(Settled()) ==> Settled())
      ensures IsChecking() ==>
                old(position) <= position && old(pending) <= pending && Followed(gets, old(submitted), old(missing))
      ensures !fault && !IsChecking() ==> position == 0 && delayChecked && FailedAt(gets)
    {
      hide Valid;
      SetTimers(delayChecked, false);
      if !IsChecking() { return true; }
      Queue(gets);
      return false;
    }

    /** The end of the check is taken note of. */
    method ConfirmChecked()
      requires Valid() && outstanding == 0
      modifies this`outstanding
      ensures Valid() && !IsChecking()
    {
      outstanding := -1;
    }

    /** The announcement of the end is delivered: to an active download, or with chunks outstanding, it is an
        error, and otherwise no check runs after it. That the hash queue still has a chunk then cannot be. */
    method ReceiveInitialHash(active: bool) returns (error: Error)
      requires Valid() && delayChecked
      modifies this`outstanding, this`delayChecked, this`delayRetry
      ensures Valid() && !delayChecked && delayRetry == old(delayRetry) && pending == old(pending)
      ensures error == if active then Active else if old(outstanding) > 0 then Unanswered else None
      ensures if error.None? then !IsChecking() else outstanding == old(outstanding)
      ensures old(AllReached()) ==> AllReached()
    {
      hide Ordered, Chunks, RangesOk;
      SetTimers(false, delayRetry);
      if active { return Active; }
      if !IsChecking() { return None; }
      if outstanding != 0 { return Unanswered; }
      ConfirmChecked();
      assert pending == {};
      return None;
    }

    lemma LiveIsGoing(gets: seq<Got>)
      requires Live(gets) && Valid()
      ensures Going() && (!IsChecking() ==> pending == {})
    {
    }

    /** When the end is announced, or nothing more is to come, every chunk was reached. */
    lemma IdleIsReached()
      requires Valid() && Going() && Settled() && IsChecking() && (delayChecked || (pending == {} && !delayRetry))
      ensures AllReached() && delayChecked && outstanding == 0
    {
    }

    lemma EndIsReached()
      requires Valid() && IsChecking() && position == size
      ensures AllReached()
    {
    }

    /** An answer or a retry that is due. */
    method Step(e: Event)
      requires Valid() && RetryOk() && IsChecking() && !e.End? && |e.gets| == size
      requires if e.Answer? then e.index in pending else delayRetry
      modifies this
      ensures Valid() && Going() && RetryOk() && (old(Settled()) ==> Settled()) && (old(delayChecked) ==> delayChecked)
      ensures IsChecking() ==> old(position) <= position && old(submitted) <= submitted && old(missing) <= missing
      ensures !IsChecking() ==> pending == {} && position == 0 && delayChecked && FailedAt(e.gets)
    {
      hide Valid, FailedAt, Live;
      if e.Answer? {
        ReceiveChunkDone(e.index, e.gets);
      } else {
        var fault := Retry(e.gets);
      }
      LiveIsGoing(e.gets);
    }

    /** Any answers, retries and announcements, in any order, on a running check; those not due are passed
        over. The check goes on in order until its end is delivered; `end` is when that was. If no end was
        announced that the check had not come to, there is no error, and the check is over only with every
        chunk reached, or for one that could not be mapped. Otherwise all depends on what the announcement
        comes upon: with chunks outstanding it is an error; with none, before the last chunk, it closes the
        check unfinished with the retry timer set, which is an error as soon as that fires. */
    method Run(events: seq<Event>) returns (error: Error, ghost end: Delivery)
      requires Valid() && Going() && RetryOk() && IsChecking()
      requires forall e :: e in events && !e.End? ==> |e.gets| == size
      modifies this
      ensures Valid() && (end.At? ==> end.index < |events| && events[end.index].End?)
      ensures end.NotYet? ==> error.None? && Going() && RetryOk()
      ensures IsChecking() ==> old(position) <= position && old(submitted) <= submitted && old(missing) <= missing
      ensures old(Settled()) ==> error.None? && RetryOk() && Settled()
      ensures old(Settled()) && IsChecking() && pending == {} && !delayRetry ==> AllReached() && delayChecked
      ensures !IsChecking() && !Unfinished(end) ==>
                AllReached() || (position == 0 && exists e :: e in events && !e.End? && FailedAt(e.gets))
      ensures error.Unanswered? <==> end.At? && end.checking && end.outstanding > 0
      ensures error.NotRunning? <==> Unfinished(end) && exists j :: end.index < j < |events| && events[j].Retry?
      ensures !error.Active? && (Unfinished(end) ==> !IsChecking() && position == end.position)
      ensures Unfinished(end) && error.None? ==> delayRetry
      ensures old(delayChecked) ==> forall j :: 0 <= j < (if end.At? then end.index else |events|) ==> !events[j].End?
      ensures old(delayChecked) && end.At? && end.index == 0 ==> end == At(0, true, old(position), old(outstanding))
    {
      hide Valid, Followed, FailedAt, AllReached, Live, Enough;
      error, end := None, NotYet;
      ghost var f := 0;
      var i := 0;
      while i < |events|
        invariant i <= |events| && Valid() && error.None? && end.NotYet? && Going() && RetryOk()
        invariant (old(Settled()) ==> Settled()) && (old(delayChecked) ==> delayChecked)
        invariant IsChecking() ==> old(position) <= position && old(submitted) <= submitted && old(missing) <= missing
        invariant old(delayChecked) ==> forall j :: 0 <= j < i ==> !events[j].End?
        invariant i == 0 ==> IsChecking() && position == old(position) && outstanding == old(outstanding)
        invariant !IsChecking() ==>
                    pending == {} && position == 0 && f < |events| && !events[f].End? && FailedAt(events[f].gets)
      {
        var e := events[i];
        assert e in events;
        if IsChecking() { f := i; }
        match e {
          case Answer(index, gets) => if index in pending { Step(e); }
          case Retry(gets) => if delayRetry { Step(e); }
          case End =>
            if delayChecked {
              error, end := Deliver(i);
              if error.None? { error := Over(events, i + 1); }
              assert !end.checking ==> events[f] in events && FailedAt(events[f].gets);
              return;
            }
        }
        i := i + 1;
      }
      if old(Settled()) && IsChecking() && pending == {} && !delayRetry { IdleIsReached(); }
      assert !IsChecking() ==> events[f] in events;
    }

    /** The shortest run that tells: a check is safe in every run if and only if it is in this one, that is,
        if no end is announced that it has not come to. */
    method EndThenRetry(gets: seq<Got>) returns (error: Error)
      requires Valid() && Going() && RetryOk() && IsChecking() && |gets| == size
      modifies this
      ensures error.None? <==> old(Settled())
    {
      hide Valid;
      var events := [End, Event.Retry(gets)];
      ghost var end;
      error, end := Run(events);
      assert events[0].End? && events[1].Retry?;
    }

    /** A check that the announced end closed before its last chunk. */
    ghost predicate Unfinished(end: Delivery)
    {
      end.At? && end.checking && end.outstanding == 0 && end.position < size
    }

    /** The announcement is delivered to a check. */
    method Deliver(index: nat) returns (error: Error, ghost end: Delivery)
      requires Valid() && delayChecked && Going() && RetryOk()
      modifies this`outstanding, this`delayChecked, this`delayRetry
      ensures Valid() && end == At(index, old(IsChecking()), old(position), old(outstanding)) && !delayChecked
      ensures error == if end.checking && end.outstanding > 0 then Unanswered else None
      ensures error.None? ==> !IsChecking() && pending == {} && (delayRetry <==> Unfinished(end))
      ensures !error.None? ==> IsChecking()
      ensures end.checking && error.None? && !Unfinished(end) ==> AllReached()
      ensures old(Settled()) ==> error.None? && !Unfinished(end)
    {
      end := At(index, IsChecking(), position, outstanding);
      if IsChecking() && outstanding == 0 && position == size { EndIsReached(); }
      error := ReceiveInitialHash(false);
    }

    /** Nothing but the retry timer can fire once the end was delivered, and that is an error. */
    method Over(events: seq<Event>, from: nat) returns (error: Error)
      requires Valid() && !IsChecking() && pending == {} && !delayChecked && from <= |events|
      requires forall e :: e in events && !e.End? ==> |e.gets| == size
      modifies this
      ensures Valid() && !IsChecking() && position == old(position) && !delayChecked
      ensures error ==
                if old(delayRetry) && exists j :: from <= j < |events| && events[j].Retry? then NotRunning else None
      ensures error.None? ==> delayRetry == old(delayRetry)
      ensures old(AllReached()) ==> AllReached()
    {
      hide Ordered, RangesOk;
      for i := from to |events|
        invariant Valid() && !IsChecking() && position == old(position) && !delayChecked
                  && delayRetry == old(delayRetry)
        invariant delayRetry ==> forall j :: from <= j < i ==> !events[j].Retry?
        invariant old(AllReached()) ==> AllReached()
      {
        assert events[i] in events;
        if events[i].Retry? && delayRetry {
          var fault := Retry(events[i].gets);
          return NotRunning;
        }
      }
      return None;
    }

    /** A submitted chunk was given up; it is to be checked again. */
    method ReceiveChunkCleared(index: nat)
      requires RangesOk() && index < size && outstanding > 0 && index !in Chunks()
      modifies this`outstanding, ranges
      ensures RangesOk() && outstanding == old(outstanding) - 1 && Chunks() == old(Chunks()) + {index}
    {
      hide Normal, Member;
      var has := ranges.Has(index);
      assert !has;
      outstanding := outstanding - 1;
      ranges.Insert(Range(index, index + 1));
    }

    /** The chunks before the position are not to be checked any more. */
    method DropReached()
      requires Valid()
      modifies ranges
      ensures RangesOk() && Chunks() == set x | x in old(Chunks()) && x >= position
    {
      hide Normal, Member, Ordered;
      ranges.Erase(Range(0, position));
    }

    method GiveBack(order: seq<nat>)
      requires RangesOk() && outstanding == |order| && (forall i, j :: 0 <= i < j < |order| ==> order[i] != order[j])
      requires forall x :: x in order ==> x < size && x !in Chunks()
      modifies this`outstanding, ranges
      ensures RangesOk() && Chunks() == old(Chunks()) + set x | x in order
    {
      hide Chunks, RangesOk;
      var k := 0;
      assert order[..k] == [];
      while k < |order|
        invariant k <= |order| && RangesOk() && outstanding == |order| - k
        invariant Chunks() == old(Chunks()) + set x | x in order[..k]
      {
        assert order[k] in order && order[k] !in order[..k] && order[..k + 1] == order[..k] + [order[k]];
        ReceiveChunkCleared(order[k]);
        k := k + 1;
      }
      assert order[..k] == order;
    }

    /** The check is stopped; `order` is how the hash queue gives up the chunks in flight. The ranges are
        left with exactly what is still to be checked: chunks not reached and chunks not answered. */
    method HashStop(order: seq<nat>)
      requires Valid() && (forall i, j :: 0 <= i < j < |order| ==> order[i] != order[j])
      requires forall x :: x in pending <==> x in order
      modifies this, ranges
      ensures Valid() && !IsChecking()
      ensures old(IsChecking()) ==> Chunks() == (set x | x in old(Chunks()) && x >= old(position)) + old(pending)
    {
      hide Chunks, RangesOk, Ordered;
      if !IsChecking() { return; }
      PendingSize(order, pending);
      OrderedBounds(submitted, missing, position, Chunks());
      assert old(pending) == set x | x in order;
      DropReached();
      GiveBack(order);
      ghost var c := Chunks();
      Clear();
      assert Chunks() == c;
    }
  }

  /** A check of one chunk that failed, started again before its end was delivered. */
  method Restarted(got: Got) returns (h: HashTorrent)
    ensures fresh(h) && fresh(h.ranges) && h.Valid() && h.size == 1 && h.Chunks() == {0}
    ensures h.delayChecked
    ensures !got.Failed? ==> h.IsChecking() && h.Live([got]) && h.Followed([got], [], {}) && h.RetryOk()
  {
    h := new HashTorrent(1, 0);
    h.ranges.Insert(Range(0, 1));
    assert h.ranges.Contains(0) && h.Chunks() == {0};
    var gets := [Failed(5)];
    var done, fault := h.Start(false, gets);
    assert !h.IsChecking();
    gets := [got];
    done, fault := h.Start(false, gets);
  }

  /** The old announcement comes while a chunk of the new check is outstanding, which is an error. */
  method StaleEndFaults() returns (h: HashTorrent, error: Error)
    ensures error.Unanswered? && h.outstanding == 1
  {
    h := Restarted(Mapped);
    OneSubmitted(h.submitted, h.missing, h.position, [Mapped], h.pending);
    error := h.ReceiveInitialHash(false);
  }

  /** Or it comes while the new check waits to retry: that closes it unfinished, without an error, and the
      retry then meets one. */
  method StaleEndStops() returns (h: HashTorrent, error: Error, fault: bool)
    ensures error.None? && !h.IsChecking() && h.position < h.size && fault
  {
    h := Restarted(NoMemory);
    assert h.delayRetry;
    error := h.ReceiveInitialHash(false);
    fault := h.Retry([NoMemory]);
  }

  lemma OneSubmitted(submitted: seq<nat>, missing: set<nat>, position: nat, gets: seq<Got>, pending: set<nat>)
    requires Ordered(submitted, missing, position, {0}) && position == 1 && missing == {}
    requires forall x :: x in submitted <==> x in pending
    ensures pending == {0} && |pending| == 1
  {
    assert 0 in submitted;
  }

  lemma OrderedBounds(submitted: seq<nat>, missing: set<nat>, position: nat, chunks: set<nat>)
    requires Ordered(submitted, missing, position, chunks)
    ensures forall x :: x in submitted ==> x < position
  {
  }

  lemma {:induction false} PendingSize(order: seq<nat>, s: set<nat>)
    requires forall i, j :: 0 <= i < j < |order| ==> order[i] != order[j]
    requires forall x :: x in s <==> x in order
    ensures |s| == |order|
  {
    if order == [] {
      assert s == {};
    } else {
      var k := |order| - 1;
      assert order == order[..k] + [order[k]];
      PendingSize(order[..k], s - {order[k]});
    }
  }
}
