/** Names that were resolved before, for two address families, with a list for each of its records in
    the order in which they get stale. Times are in minutes. */
module DnsCaches {
  import opened Collections

  type Host = nat
  type Addr = nat

  datatype Family = Inet | Inet6

  function Other(f: Family): Family { if f.Inet? then Inet6 else Inet }

  /** What is known for one family: an address, and when it was last updated, or failed to be. */
  datatype Record = Record(addr: Option<Addr>, updating: bool, noRecord: bool, updated: nat, failed: nat)

  const UNKNOWN := Record(None, false, false, 0, 0)

  datatype Entry = Entry(sin: Record, sin6: Record)

  function Get(e: Entry, f: Family): Record { if f.Inet? then e.sin else e.sin6 }

  function Put(e: Entry, f: Family, r: Record): Entry { if f.Inet? then e.(sin := r) else e.(sin6 := r) }

  /** The later of the two times; 0 for a record never made. */
  function Stamp(r: Record): nat { if r.updated < r.failed then r.failed else r.updated }

  predicate Stale(r: Record, now: nat) { Stamp(r) > 0 && now >= Stamp(r) + 48 * 60 }

  type Entries = map<Host, Entry>

  /** The stamps of a family: those records that were ever made. */
  ghost function Stamps(m: Entries, f: Family): map<Host, nat> {
    map h | h in m && Stamp(Get(m[h], f)) > 0 :: Stamp(Get(m[h], f))
  }

  /** A list holds each stamped entry once, in the order of stamps, none of them later than now. */
  ghost predicate ListOk(s: seq<Host>, st: map<Host, nat>, now: nat) {
    && Distinct(s) && (forall h :: h in s <==> h in st)
    && Increases(s, st) && (forall h :: h in st ==> st[h] <= now)
  }

  ghost predicate Increases(s: seq<Host>, st: map<Host, nat>) {
    && (forall h :: h in s ==> h in st)
    && forall i, j :: 0 <= i < j < |s| ==> st[s[i]] <= st[s[j]]
  }

  /** Every entry is stamped for one family at least, and an address comes with a stamp. */
  predicate EntryOk(e: Entry) {
    && (Stamp(e.sin) > 0 || Stamp(e.sin6) > 0)
    && (e.sin.addr.Some? ==> Stamp(e.sin) > 0) && (e.sin6.addr.Some? ==> Stamp(e.sin6) > 0)
  }

  ghost predicate EntriesOk(m: Entries) { forall h :: h in m ==> EntryOk(m[h]) }

  /** s without h. */
  function Unlisted(s: seq<Host>, h: Host): (r: seq<Host>)
    ensures forall x :: x in r ==> x in s
    ensures forall x :: x in s && x != h ==> x in r
  {
    if s == [] then [] else if s[0] == h then s[1..] else [s[0]] + Unlisted(s[1..], h)
  }

  lemma {:induction false} WithoutKeeps(s: seq<Host>, h: Host)
    requires Distinct(s)
    ensures Distinct(Unlisted(s, h)) && h !in Unlisted(s, h)
  {
    if s != [] && s[0] != h {
      WithoutKeeps(s[1..], h);
      assert s[0] !in s[1..];
    }
  }

  lemma {:induction false} WithoutIncreases(s: seq<Host>, st: map<Host, nat>, h: Host)
    requires Increases(s, st)
    ensures Increases(Unlisted(s, h), st)
  {
    if s != [] && s[0] != h {
      WithoutIncreases(s[1..], st, h);
      assert forall x :: x in s[1..] ==> st[s[0]] <= st[x];
      PrependIncreases(s[0], Unlisted(s[1..], h), st);
    }
  }

  lemma PrependIncreases(x: Host, r: seq<Host>, st: map<Host, nat>)
    requires Increases(r, st) && x in st && forall y :: y in r ==> st[x] <= st[y]
    ensures Increases([x] + r, st)
  {
    assert forall i :: 0 <= i < |r| ==> r[i] in r;
  }

  /** An entry erased from the list. */
  lemma ListErase(s: seq<Host>, st: map<Host, nat>, now: nat, h: Host)
    requires ListOk(s, st, now)
    ensures ListOk(Unlisted(s, h), st - {h}, now)
  {
    WithoutKeeps(s, h);
    WithoutIncreases(s, st, h);
  }

  /** A record stamped now goes to the end of its list. */
  lemma ListStamp(s: seq<Host>, st: map<Host, nat>, was: nat, now: nat, h: Host)
    requires ListOk(s, st, was) && was <= now
    ensures ListOk(Unlisted(s, h) + [h], st[h := now], now)
  {
    ListErase(s, st, was, h);
    var r := Unlisted(s, h);
    AppendIncreases(r, st - {h}, h, now, was);
    assert (st - {h})[h := now] == st[h := now];
    assert Distinct(r + [h]);
  }

  lemma AppendIncreases(r: seq<Host>, st: map<Host, nat>, h: Host, now: nat, was: nat)
    requires ListOk(r, st, was) && h !in st && was <= now
    ensures Increases(r + [h], st[h := now]) && forall x :: x in r + [h] <==> x in st[h := now]
  {
    assert forall i :: 0 <= i < |r| ==> r[i] in st;
  }

  lemma Stamped(m: Entries, f: Family, h: Host, e: Entry)
    requires Stamp(Get(e, f)) > 0
    ensures Stamps(m[h := e], f) == Stamps(m, f)[h := Stamp(Get(e, f))]
  {
  }

  lemma NotStamped(m: Entries, f: Family, h: Host, e: Entry)
    requires Stamp(Get(e, f)) == if h in m then Stamp(Get(m[h], f)) else 0
    ensures Stamps(m[h := e], f) == Stamps(m, f)
  {
  }

  lemma Erased(m: Entries, f: Family, h: Host)
    ensures Stamps(m - {h}, f) == Stamps(m, f) - {h}
  {
  }

  /** Entries with no record that is 48 hours old. */
  ghost function Fresh(m: Entries, now: nat): Entries {
    map h | h in m && !Stale(m[h].sin, now) && !Stale(m[h].sin6, now) :: m[h]
  }

  datatype Error = Again | NoName

  datatype Status = Empty | Valid | TryAgain | NoRecord

  /** How a record answers, and whether it is to be refreshed in the background. */
  function Look(r: Record, now: nat): (Status, bool) {
    if r.addr.Some? then (Valid, now > Stamp(r) + 24 * 60)
    else if Stamp(r) == 0 then (Empty, false)
    else if r.updating then (TryAgain, false)
    else if r.noRecord then (NoRecord, now > Stamp(r) + 2 * 60)
    else (TryAgain, now > Stamp(r) + 10)
  }

  datatype Want = WantInet | WantInet6 | WantBoth

  datatype Result = Nothing | Address(addr: Addr) | Failure(error: Error)

  /** Answer: the callback is called. Ask: one family is queried, and the answer joined with what is known
      of the other. AskAll: the name is not known at all. Fault: an internal error. */
  datatype Outcome =
    | Answer(sin: Result, sin6: Result) | Ask(family: Family, keep: Option<Addr>) | AskAll(want: Want) | Fault

  function ErrorOf(s: Status): Result
    requires s.TryAgain? || s.NoRecord?
  {
    Failure(if s.TryAgain? then Again else NoName)
  }

  /** The answer from an entry, case by case. */
  function Reply(want: Want, e: Entry, s4: Status, s6: Status): Outcome
    requires (s4.Valid? ==> e.sin.addr.Some?) && (s6.Valid? ==> e.sin6.addr.Some?)
  {
    match want
    case WantInet =>
      if s4.Empty? then Ask(Inet, None)
      else if s4.Valid? then Answer(Address(e.sin.addr.value), Nothing)
      else Answer(ErrorOf(s4), Nothing)
    case WantInet6 =>
      if s6.Empty? then Ask(Inet6, None)
      else if s6.Valid? then Answer(Nothing, Address(e.sin6.addr.value))
      else Answer(Nothing, ErrorOf(s6))
    case WantBoth =>
      if s4.Valid? then
        if s6.Empty? then Ask(Inet6, e.sin.addr)
        else if s6.Valid? then Answer(Address(e.sin.addr.value), Address(e.sin6.addr.value))
        else Answer(Address(e.sin.addr.value), ErrorOf(s6))
      else if s6.Valid? then
        if s4.Empty? then Ask(Inet, e.sin6.addr) else Answer(ErrorOf(s4), Address(e.sin6.addr.value))
      else if s4.Empty? then
        if s6.NoRecord? || s6.TryAgain? then Ask(Inet, None) else Fault
      else if s6.Empty? then
        if s4.NoRecord? || s4.TryAgain? then Ask(Inet6, None) else Fault
      else if s4.NoRecord? || s6.NoRecord? then Answer(ErrorOf(s4), ErrorOf(s6))
      else if s4.TryAgain? && s6.TryAgain? then Answer(Failure(Again), Failure(Again))
      else Fault
  }

  predicate Wanted(want: Want, f: Family) {
    want.WantBoth? || (want.WantInet? && f.Inet?) || (want.WantInet6? && f.Inet6?)
  }

  /** What an answer says of a family. */
  function Told(r: Outcome, f: Family): Result
    requires r.Answer?
  {
    if f.Inet? then r.sin else r.sin6
  }

  /** What a status tells the caller that wants the family. */
  function Tells(want: Want, e: Entry, f: Family, s: Status): Result {
    if !Wanted(want, f) || s.Empty? then Nothing
    else if s.Valid? && Get(e, f).addr.Some? then Address(Get(e, f).addr.value)
    else if s.NoRecord? then Failure(NoName) else Failure(Again)
  }

  /** A record that was made is told as it is, in an answer. */
  lemma ReplyTells(want: Want, e: Entry, f: Family, now: nat)
    requires EntryOk(e) && Stamp(Get(e, f)) > 0 && Wanted(want, f)
    ensures (Look(e.sin, now).0.Valid? ==> e.sin.addr.Some?) && (Look(e.sin6, now).0.Valid? ==> e.sin6.addr.Some?)
    ensures var r := Reply(want, e, Look(e.sin, now).0, Look(e.sin6, now).0);
            && !r.AskAll? && (!want.WantBoth? ==> r.Answer?)
            && (r.Answer? ==> Told(r, f) == Tells(want, e, f, Look(Get(e, f), now).0))
  {
    ReplyRule(want, e, Look(e.sin, now).0, Look(e.sin6, now).0);
  }

  lemma LookFound(r: Record, now: nat)
    requires Stamp(r) > 0
    ensures r.addr.Some? ==> Look(r, now) == (Valid, now > Stamp(r) + 24 * 60)
  {
  }

  lemma LookFailed(r: Record, now: nat)
    requires Stamp(r) > 0 && !r.updating
    ensures r.addr.None? ==>
              Look(r, now) ==
                if r.noRecord then (NoRecord, now > Stamp(r) + 2 * 60) else (TryAgain, now > Stamp(r) + 10)
  {
  }

  lemma LookUpdating(r: Record, now: nat, later: nat)
    ensures r.addr.None? && Look(r, now).1 ==>
              Stamp(r) > 0 && Stamp(r.(updating := true)) == Stamp(r)
              && Look(r.(updating := true), later) == (TryAgain, false)
  {
  }

  /** The rule behind the cases: a wanted family of which nothing is known is asked for, and only that
      one; otherwise each family tells what it knows. It is a fault if and only if nothing is known of
      either. */
  lemma ReplyRule(want: Want, e: Entry, s4: Status, s6: Status)
    requires (s4.Valid? ==> e.sin.addr.Some?) && (s6.Valid? ==> e.sin6.addr.Some?)
    ensures var r := Reply(want, e, s4, s6);
            var miss4, miss6 := Wanted(want, Inet) && s4.Empty?, Wanted(want, Inet6) && s6.Empty?;
            && (r.Fault? <==> miss4 && miss6)
            && (miss4 && !miss6 ==> r == Ask(Inet, if want.WantBoth? && s6.Valid? then e.sin6.addr else None))
            && (miss6 && !miss4 ==> r == Ask(Inet6, if want.WantBoth? && s4.Valid? then e.sin.addr else None))
            && (!miss4 && !miss6 ==> r == Answer(Tells(want, e, Inet, s4), Tells(want, e, Inet6, s6)))
  {
  }

  class DnsCache {
    var entries: Entries
    var sinList: seq<Host>
    var sin6List: seq<Host>
    ghost var now: nat

    ghost predicate Valid()
      reads this
    {
      && EntriesOk(entries)
      && ListOk(sinList, Stamps(entries, Inet), now) && ListOk(sin6List, Stamps(entries, Inet6), now)
    }

    constructor ()
      ensures Valid() && entries == map[] && now == 0
    {
      entries, sinList, sin6List, now := map[], [], [], 0;
    }

    /** The record of one family is replaced, and goes to the end of its list. */
    method Reset(h: Host, f: Family, r: Record, time: nat)
      requires Valid() && now <= time && 0 < time == Stamp(r)
      modifies this
      ensures Valid() && now == time
      ensures entries ==
                old(entries)[h := Put(if h in old(entries) then old(entries)[h] else Entry(UNKNOWN, UNKNOWN), f, r)]
    {
      hide ListOk, Stamps, Unlisted;
      var e := Put(if h in entries then entries[h] else Entry(UNKNOWN, UNKNOWN), f, r);
      Stamped(entries, f, h, e);
      NotStamped(entries, Other(f), h, e);
      ListStamp(if f.Inet? then sinList else sin6List, Stamps(entries, f), now, time, h);
      ListLater(if f.Inet? then sin6List else sinList, Stamps(entries, Other(f)), now, time);
      if f.Inet? {
        sinList := Unlisted(sinList, h) + [h];
      } else {
        sin6List := Unlisted(sin6List, h) + [h];
      }
      entries := entries[h := e];
      now := time;
    }

    /** An address was found. */
    method ProcessSuccess(h: Host, f: Family, addr: Addr, time: nat)
      requires Valid() && now <= time && time > 0
      modifies this
      ensures Valid() && now == time && h in entries
      ensures Get(entries[h], Other(f)) == if h in old(entries) then Get(old(entries)[h], Other(f)) else UNKNOWN
      ensures Get(entries[h], f) == Record(Some(addr), false, false, time, 0)
      ensures forall x :: x != h ==>
                (x in entries <==> x in old(entries)) && (x in entries ==> entries[x] == old(entries)[x])
    {
      hide ListOk, Stamps, EntriesOk;
      Reset(h, f, Record(Some(addr), false, false, time, 0), time);
    }

    /** None was found: that there is none is as good as an answer, any other error is not. */
    method ProcessFailure(h: Host, f: Family, error: Error, time: nat)
      requires Valid() && now <= time && time > 0
      modifies this
      ensures Valid() && now == time && h in entries
      ensures Get(entries[h], Other(f)) == if h in old(entries) then Get(old(entries)[h], Other(f)) else UNKNOWN
      ensures var was := if h in old(entries) then Get(old(entries)[h], f) else UNKNOWN;
              Get(entries[h], f) ==
                if error.NoName? then Record(None, false, true, 0, time)
                else Record(was.addr, false, was.noRecord, 0, time)
      ensures forall x :: x != h ==>
                (x in entries <==> x in old(entries)) && (x in entries ==> entries[x] == old(entries)[x])
    {
      hide ListOk, Stamps, EntriesOk;
      var was := if h in entries then Get(entries[h], f) else UNKNOWN;
      var r := was.(updating := false, updated := 0, failed := time);
      if error.NoName? { r := r.(addr := None, noRecord := true); }
      Reset(h, f, r, time);
    }

    function ListOf(f: Family): seq<Host> reads this { if f.Inet? then sinList else sin6List }

    method EraseEntry(h: Host)
      requires Valid()
      modifies this
      ensures Valid() && entries == old(entries) - {h} && now == old(now)
      ensures sinList == Unlisted(old(sinList), h) && sin6List == Unlisted(old(sin6List), h)
    {
      hide ListOk, Stamps, Unlisted;
      Erased(entries, Inet, h);
      Erased(entries, Inet6, h);
      ListErase(sinList, Stamps(entries, Inet), now, h);
      ListErase(sin6List, Stamps(entries, Inet6), now, h);
      sinList, sin6List := Unlisted(sinList, h), Unlisted(sin6List, h);
      entries := entries - {h};
    }

    /** The front of a list is erased as long as its record is 48 hours old. */
    method CullFamily(f: Family, time: nat)
      requires Valid()
      modifies this
      ensures Valid() && now == old(now)
      ensures entries == map h | h in old(entries) && !Stale(Get(old(entries)[h], f), time) :: old(entries)[h]
    {
      hide ListOk, Stamps, Stale, EntriesOk;
      ghost var all := entries;
      var list := ListOf(f);
      while list != []
        invariant Valid() && now == old(now) && list == ListOf(f)
        invariant forall h :: h in entries ==> h in all && entries[h] == all[h]
        invariant forall h :: h in all && h !in entries ==> Stale(Get(all[h], f), time)
        decreases |list|
      {
        var h := list[0];
        FrontStamped(list, entries, f, now);
        if time < Stamp(Get(entries[h], f)) + 48 * 60 { break; }
        StaleIs(Get(entries[h], f), time);
        assert Unlisted(list, h) == list[1..];
        EraseEntry(h);
        list := ListOf(f);
      }
      RestIsFresh(list, entries, f, now, time);
      assert forall h :: h in entries <==> h in all && !Stale(Get(all[h], f), time);
    }

    /** No record that is 48 hours old remains, and nothing else is lost. */
    method CullStaleEntries(time: nat)
      requires Valid() && now <= time
      modifies this
      ensures Valid() && now == time && entries == Fresh(old(entries), time)
    {
      hide ListOk, Stamps, Stale, EntriesOk;
      CullFamily(Inet, time);
      CullFamily(Inet6, time);
      ListLater(sinList, Stamps(entries, Inet), now, time);
      ListLater(sin6List, Stamps(entries, Inet6), now, time);
      now := time;
    }

    /** Marks a record as being updated; nothing the lists depend on changes. */
    method MarkUpdating(h: Host, f: Family, b: bool)
      requires Valid() && h in entries
      modifies this`entries
      ensures Valid() && entries == old(entries)[h := Mark(old(entries)[h], f, b)]
    {
      hide ListOk, Stamps;
      var e := Mark(entries[h], f, b);
      NotStamped(entries, Inet, h, e);
      NotStamped(entries, Inet6, h, e);
      entries := entries[h := e];
    }

    /** An entry answers for what is wanted of it, and is marked for the queries made. */
    method AnswerFrom(h: Host, want: Want, time: nat) returns (r: Outcome, refresh: set<Family>)
      requires Valid() && h in entries
      modifies this`entries
      ensures Valid() && !r.Fault?
      ensures var e := old(entries)[h];
              && r == Reply(want, e, Look(e.sin, time).0, Look(e.sin6, time).0)
              && refresh == (set f: Family | Wanted(want, f) && Look(Get(e, f), time).1)
              && entries == old(entries)[h := Mark(Mark(e, Inet, Inet in refresh || (r.Ask? && r.family.Inet?)),
                                                   Inet6, Inet6 in refresh || (r.Ask? && r.family.Inet6?))]
    {
      hide ListOk, Stamps, Look, Reply, Mark;
      var e := entries[h];
      LookAddr(e, time);
      ReplyRule(want, e, Look(e.sin, time).0, Look(e.sin6, time).0);
      refresh := {};
      if Wanted(want, Inet) && Look(e.sin, time).1 { refresh := refresh + {Inet}; }
      if Wanted(want, Inet6) && Look(e.sin6, time).1 { refresh := refresh + {Inet6}; }
      r := Reply(want, e, Look(e.sin, time).0, Look(e.sin6, time).0);
      hide EntriesOk;
      MarkUpdating(h, Inet, Inet in refresh || (r.Ask? && r.family.Inet?));
      MarkUpdating(h, Inet6, Inet6 in refresh || (r.Ask? && r.family.Inet6?));
    }

    /** A name is looked up: stale entries go first, then the entry answers for what is wanted of it. No
        internal error is ever met. `refresh` are the families queried in the background. */
    method Resolve(h: Host, want: Want, time: nat) returns (r: Outcome, refresh: set<Family>)
      requires Valid() && now <= time
      modifies this
      ensures Valid() && now == time && !r.Fault?
      ensures var m := Fresh(old(entries), time);
              if h !in m then r == AskAll(want) && entries == m && refresh == {}
              else
                && r == Reply(want, m[h], Look(m[h].sin, time).0, Look(m[h].sin6, time).0)
                && refresh == (set f: Family | Wanted(want, f) && Look(Get(m[h], f), time).1)
                && entries == m[h := Mark(Mark(m[h], Inet, Inet in refresh || (r.Ask? && r.family.Inet?)),
                                          Inet6, Inet6 in refresh || (r.Ask? && r.family.Inet6?))]
    {
      hide *;
      CullStaleEntries(time);
      if h !in entries { return AskAll(want), {}; }
      r, refresh := AnswerFrom(h, want, time);
    }

    /** What is told after an address was found, until 48 hours later: that address, which is asked for again
        in the background after 24 hours. An entry of which the other record gets stale is lost with it. */
    method ResolveAfterSuccess(h: Host, f: Family, addr: Addr, time: nat, want: Want, later: nat)
      returns (r: Outcome, refresh: set<Family>)
      requires Valid() && now <= time <= later && time > 0 && Wanted(want, f)
      modifies this
      ensures Valid() && (!want.WantBoth? && !r.AskAll? ==> r.Answer?)
      ensures r.AskAll? <==> later >= time + 48 * 60 || old(LostWith(h, f, later))
      ensures r.Answer? ==> Told(r, f) == Address(addr)
      ensures !r.AskAll? ==> (f in refresh <==> later > time + 24 * 60)
    {
      hide ListOk, Stamps, Reply, EntryOk, EntriesOk, Look, Mark;
      ProcessSuccess(h, f, addr, time);
      ghost var e := entries[h];
      EntryIs(h);
      r, refresh := Resolve(h, want, later);
      ReplyTells(want, e, f, later);
      LookFound(Get(e, f), later);
    }

    lemma EntryIs(h: Host)
      requires Valid() && h in entries
      ensures EntryOk(entries[h])
    {
      hide ListOk, Stamps, EntryOk;
    }

    /** What is told after none was found: that there is none, if so, for two hours; and otherwise what was
        known before, or to try again, for ten minutes. */
    method ResolveAfterFailure(h: Host, f: Family, error: Error, time: nat, want: Want, later: nat)
      returns (r: Outcome, refresh: set<Family>)
      requires Valid() && now <= time <= later && time > 0 && Wanted(want, f)
      modifies this
      ensures Valid() && (!want.WantBoth? && !r.AskAll? ==> r.Answer?)
      ensures r.AskAll? <==> later >= time + 48 * 60 || old(LostWith(h, f, later))
      ensures !r.AskAll? ==>
                var was := if h in old(entries) then Get(old(entries)[h], f) else UNKNOWN;
                if error.Again? && was.addr.Some? then
                  (r.Answer? ==> Told(r, f) == Address(was.addr.value)) && (f in refresh <==> later > time + 24 * 60)
                else if error.NoName? || was.noRecord then
                  (r.Answer? ==> Told(r, f) == Failure(NoName)) && (f in refresh <==> later > time + 2 * 60)
                else
                  (r.Answer? ==> Told(r, f) == Failure(Again)) && (f in refresh <==> later > time + 10)
    {
      hide ListOk, Stamps, Reply, EntryOk, EntriesOk, Look, Mark;
      ProcessFailure(h, f, error, time);
      ghost var e := entries[h];
      EntryIs(h);
      r, refresh := Resolve(h, want, later);
      ReplyTells(want, e, f, later);
      LookFound(Get(e, f), later);
      LookFailed(Get(e, f), later);
    }

    /** The entry is lost because its record of the other family is. */
    predicate LostWith(h: Host, f: Family, later: nat)
      reads this`entries
    {
      h in entries && Stale(Get(entries[h], Other(f)), later)
    }

    /** While a record without an address is asked for in the background, it is not asked for again. */
    method ResolveTwice(h: Host, f: Family, want: Want, time: nat, later: nat)
      returns (r: Outcome, refresh: set<Family>, again: set<Family>)
      requires Valid() && now <= time <= later && Wanted(want, f)
      modifies this
      ensures Valid()
      ensures f in refresh && old(h in entries && Get(entries[h], f).addr.None?) && !r.AskAll? ==>
                f !in again && (r.Answer? ==> Told(r, f) == Failure(Again))
    {
      hide ListOk, Stamps, Reply, EntryOk, EntriesOk, Look, Stamp, Stale;
      r, refresh := Resolve(h, want, time);
      if h in entries {
        ghost var e := entries[h];
        EntryIs(h);
        r, again := Resolve(h, want, later);
        LookUpdating(Get(old(entries)[h], f), time, later);
        if f in refresh && Get(e, f).addr.None? { ReplyTells(want, e, f, later); }
      } else {
        r, again := Resolve(h, want, later);
      }
    }

    /** Any calls, at times that do not go back: the cache stays valid, no answer is an internal error,
        and after a look-up no record of 48 hours or more is left. */
    method Run(calls: seq<Call>) returns (answers: seq<Outcome>)
      requires Valid() && InTime(calls, now)
      modifies this
      ensures Valid() && Fault !in answers && |answers| == Lookups(calls)
      ensures calls != [] && calls[|calls| - 1].Resolve? ==>
                forall h :: h in entries ==> !Stale(entries[h].sin, now) && !Stale(entries[h].sin6, now)
    {
      hide ListOk, Stamps, EntriesOk, Look, Reply, Valid;
      answers := [];
      for i := 0 to |calls|
        invariant Valid() && Fault !in answers && InTime(calls[i..], now)
        invariant |answers| + Lookups(calls[i..]) == Lookups(calls)
        invariant i > 0 && calls[i - 1].Resolve? ==>
                    forall h :: h in entries ==> !Stale(entries[h].sin, now) && !Stale(entries[h].sin6, now)
      {
        assert calls[i..][0] == calls[i] && calls[i..][1..] == calls[i + 1..];
        match calls[i]
        case Resolve(h, want, time) =>
          var r, refresh := Resolve(h, want, time);
          answers := answers + [r];
        case Success(h, f, addr, time) => ProcessSuccess(h, f, addr, time);
        case Failed(h, f, error, time) => ProcessFailure(h, f, error, time);
      }
    }
  }

  datatype Call =
    | Resolve(host: Host, want: Want, time: nat)
    | Success(host: Host, family: Family, addr: Addr, time: nat)
    | Failed(host: Host, family: Family, error: Error, time: nat)

  function Lookups(calls: seq<Call>): nat {
    if calls == [] then 0 else One(calls[0].Resolve?) + Lookups(calls[1..])
  }

  /** The clock is positive and does not go back. */
  predicate InTime(calls: seq<Call>, now: nat) {
    calls != [] ==> calls[0].time > 0 && now <= calls[0].time && InTime(calls[1..], calls[0].time)
  }

  function Mark(e: Entry, f: Family, b: bool): Entry {
    if b then Put(e, f, Get(e, f).(updating := true)) else e
  }

  lemma LookAddr(e: Entry, now: nat)
    requires EntryOk(e)
    ensures Look(e.sin, now).0.Valid? <==> e.sin.addr.Some?
    ensures Look(e.sin6, now).0.Valid? <==> e.sin6.addr.Some?
    ensures !(Look(e.sin, now).0.Empty? && Look(e.sin6, now).0.Empty?)
  {
  }

  lemma FrontStamped(s: seq<Host>, m: Entries, f: Family, now: nat)
    requires ListOk(s, Stamps(m, f), now) && s != []
    ensures s[0] in m && Stamp(Get(m[s[0]], f)) > 0
  {
    assert s[0] in Stamps(m, f);
  }

  lemma StaleIs(r: Record, now: nat)
    ensures Stale(r, now) <==> Stamp(r) > 0 && now >= Stamp(r) + 48 * 60
  {
  }

  /** When the first of a list is not stale, none is. */
  lemma RestIsFresh(s: seq<Host>, m: Entries, f: Family, now: nat, time: nat)
    requires ListOk(s, Stamps(m, f), now)
    requires s == [] || (s[0] in m && time < Stamp(Get(m[s[0]], f)) + 48 * 60)
    ensures forall h :: h in m ==> !Stale(Get(m[h], f), time)
  {
    var st := Stamps(m, f);
    forall h | h in m ensures !Stale(Get(m[h], f), time) {
      if Stamp(Get(m[h], f)) > 0 {
        assert h in st && h in s;
        var i :| 0 <= i < |s| && s[i] == h;
        assert s[0] in st && st[s[0]] <= st[s[i]];
      }
    }
  }

  lemma ListLater(s: seq<Host>, st: map<Host, nat>, was: nat, now: nat)
    requires ListOk(s, st, was) && was <= now
    ensures ListOk(s, st, now)
  {
  }
}
