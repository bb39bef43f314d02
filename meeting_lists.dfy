/**
 * What the contact manager's queries compute, stated over the meeting lists
 * as values: search by id, order-preserving filters, and the stable sort by
 * date that every list-returning query applies before it returns.
 *
 * A meeting's date and contacts are constant, so none of these functions
 * depends on the heap.
 */
module MeetingLists {
  import opened Contacts
  import opened Meetings
  import opened Dates

  // ---------------------------------------------------------------- search by id

  /** Some meeting of `s` has id `id`. */
  predicate HasId(s: seq<Meeting>, id: int) {
    exists k :: 0 <= k < |s| && s[k].id == id
  }

  /** The first meeting of `s` with id `id`, or null when there is none. */
  function FirstWithId(s: seq<Meeting>, id: int): (r: Meeting?)
    ensures r == null <==> !HasId(s, id)
    ensures r != null ==> r.id == id && exists k :: 0 <= k < |s| && s[k] == r && !HasId(s[..k], id)
  {
    if s == [] then null
    else if s[0].id == id then
      assert s[..0] == [];
      s[0]
    else
      var r := FirstWithId(s[1..], id);
      assert forall k :: 0 <= k < |s| - 1 ==> s[1..][k] == s[k + 1];
      if r != null then
        var k :| 0 <= k < |s| - 1 && s[1..][k] == r && !HasId(s[1..][..k], id);
        assert s[..k + 1] == [s[0]] + s[1..][..k];
        assert s[k + 1] == r;
        r
      else
        r
  }

  /** `getMeeting`: the first match in the past list, else the first in the future list, else null. */
  function Lookup(past: seq<Meeting>, future: seq<Meeting>, id: int): (r: Meeting?)
    ensures r == null <==> !HasId(past, id) && !HasId(future, id)
    ensures r != null ==> r.id == id
    ensures HasId(past, id) ==> r in past
    ensures !HasId(past, id) && HasId(future, id) ==> r in future
  {
    var p := FirstWithId(past, id);
    if p != null then p else FirstWithId(future, id)
  }

  /** No meeting occurs twice and no two meetings share an id. */
  ghost predicate UniqueIds(all: multiset<Meeting>) {
    && (forall m :: m in all ==> all[m] == 1)
    && (forall m1, m2 :: m1 in all && m2 in all && m1.id == m2.id ==> m1 == m2)
  }

  /** `List.remove(meeting)`: drop the first element equal to `m`, that is, the first with its id. */
  function RemoveFirst(s: seq<Meeting>, m: Meeting): seq<Meeting>
  {
    if s == [] then []
    else if m.Equals(s[0]) then s[1..]
    else [s[0]] + RemoveFirst(s[1..], m)
  }

  /** When `m` is the only meeting of `s` with its id, removal takes away exactly one occurrence of `m`. */
  lemma {:induction false} RemoveFirstOfUnique(s: seq<Meeting>, m: Meeting)
    requires m in s
    requires forall x :: x in s && x.id == m.id ==> x == m
    ensures multiset(RemoveFirst(s, m)) == multiset(s) - multiset{m}
  {
    assert s == [s[0]] + s[1..];
    if s[0] != m {
      RemoveFirstOfUnique(s[1..], m);
    }
  }

  /**
   * Moving `m` out of `f` and onto the end of `p` keeps the same meetings
   * overall, and leaves no meeting with its id behind in `f`.
   */
  lemma MoveKeepsMeetings(p: seq<Meeting>, f: seq<Meeting>, m: Meeting)
    requires m in f && UniqueIds(multiset(p + f))
    ensures multiset(p + [m] + RemoveFirst(f, m)) == multiset(p + f)
    ensures m !in RemoveFirst(f, m) && !HasId(RemoveFirst(f, m), m.id)
  {
    assert multiset(p + f) == multiset(p) + multiset(f);
    assert m in multiset(f);
    forall x | x in f && x.id == m.id ensures x == m {
      assert x in multiset(f);
    }
    RemoveFirstOfUnique(f, m);
    var rest := RemoveFirst(f, m);
    assert multiset(p + [m] + rest) == multiset(p) + multiset{m} + multiset(rest);
    assert multiset(f)[m] == 1;
    assert m !in multiset(rest);
    forall k | 0 <= k < |rest| ensures rest[k].id != m.id {
      assert rest[k] in multiset(rest);
      assert rest[k] in f;
    }
  }

  // ---------------------------------------------------------------- filters

  /** The meetings of `s` that satisfy `keep`, in their original order. */
  function Filter(s: seq<Meeting>, keep: Meeting -> bool): seq<Meeting>
  {
    if s == [] then [] else Filter(s[..|s| - 1], keep) + (if keep(s[|s| - 1]) then [s[|s| - 1]] else [])
  }

  /** The filter keeps exactly the meetings that satisfy `keep`. */
  lemma {:induction false} FilterMembers(s: seq<Meeting>, keep: Meeting -> bool)
    ensures forall m :: m in Filter(s, keep) <==> m in s && keep(m)
  {
    if s != [] {
      var n := |s| - 1;
      assert s == s[..n] + [s[n]];
      FilterMembers(s[..n], keep);
    }
  }

  /** Filtering a concatenation filters each part. */
  lemma {:induction false} FilterAppend(a: seq<Meeting>, b: seq<Meeting>, keep: Meeting -> bool)
    ensures Filter(a + b, keep) == Filter(a, keep) + Filter(b, keep)
    decreases |b|
  {
    if b != [] {
      var n := |b| - 1;
      assert (a + b)[..|a + b| - 1] == a + b[..n];
      FilterAppend(a, b[..n], keep);
    } else {
      assert a + b == a;
    }
  }

  /** The meetings of `s` whose contacts include `c`, in order. */
  function WithContact(s: seq<Meeting>, c: Contact?): seq<Meeting> {
    Filter(s, (m: Meeting) => c in m.contacts)
  }

  /** The meetings of `s` on the same calendar day as `date`, in order. */
  function OnDay(s: seq<Meeting>, date: int): seq<Meeting> {
    Filter(s, (m: Meeting) => AreSameDay(date, m.date))
  }

  /** The meetings of `s` whose date is exactly `d`, in order. */
  function DatedAt(s: seq<Meeting>, d: int): seq<Meeting> {
    Filter(s, (m: Meeting) => m.date == d)
  }

  lemma DatedAtMembers(s: seq<Meeting>, d: int)
    ensures forall m :: m in DatedAt(s, d) <==> m in s && m.date == d
  {
    FilterMembers(s, (m: Meeting) => m.date == d);
  }

  lemma OnDayMembers(s: seq<Meeting>, date: int)
    ensures forall m :: m in OnDay(s, date) <==> m in s && AreSameDay(date, m.date)
  {
    FilterMembers(s, (m: Meeting) => AreSameDay(date, m.date));
  }

  lemma WithContactMembers(s: seq<Meeting>, c: Contact?)
    ensures forall m :: m in WithContact(s, c) <==> m in s && c in m.contacts
  {
    FilterMembers(s, (m: Meeting) => c in m.contacts);
  }

  lemma DatedAtAppend(a: seq<Meeting>, b: seq<Meeting>, d: int)
    ensures DatedAt(a + b, d) == DatedAt(a, d) + DatedAt(b, d)
  {
    FilterAppend(a, b, (m: Meeting) => m.date == d);
  }

  // ---------------------------------------------------------------- stable sort by date

  /** Ascending by full timestamp: earliest first. */
  predicate SortedByDate(s: seq<Meeting>) {
    forall i, j :: 0 <= i < j < |s| ==> s[i].date <= s[j].date
  }

  /** Insert `m` before the first meeting of `s` that is not earlier than it. */
  function InsertByDate(m: Meeting, s: seq<Meeting>): (r: seq<Meeting>)
    ensures multiset(r) == multiset(s) + multiset{m}
  {
    if s == [] then [m]
    else if m.date <= s[0].date then [m] + s
    else
      assert s == [s[0]] + s[1..];
      [s[0]] + InsertByDate(m, s[1..])
  }

  /** Inserting a meeting no earlier than `lo` into meetings no earlier than `lo` gives meetings no earlier than `lo`. */
  lemma {:induction false} InsertByDateLowerBound(m: Meeting, s: seq<Meeting>, lo: int)
    requires lo <= m.date
    requires forall k :: 0 <= k < |s| ==> lo <= s[k].date
    ensures forall k :: 0 <= k < |InsertByDate(m, s)| ==> lo <= InsertByDate(m, s)[k].date
  {
    if s != [] && m.date > s[0].date {
      InsertByDateLowerBound(m, s[1..], lo);
      var rest := InsertByDate(m, s[1..]);
      forall k | 0 <= k < |[s[0]] + rest| ensures lo <= ([s[0]] + rest)[k].date {
        if k > 0 {
          assert ([s[0]] + rest)[k] == rest[k - 1];
        }
      }
    }
  }

  /** Inserting into a date-sorted list keeps it sorted. */
  lemma {:induction false} InsertByDateSorted(m: Meeting, s: seq<Meeting>)
    requires SortedByDate(s)
    ensures SortedByDate(InsertByDate(m, s))
  {
    if s != [] && m.date > s[0].date {
      var t := s[1..];
      forall i, j | 0 <= i < j < |t| ensures t[i].date <= t[j].date {
        assert t[i] == s[i + 1] && t[j] == s[j + 1];
      }
      forall k | 0 <= k < |t| ensures s[0].date <= t[k].date {
        assert t[k] == s[k + 1];
      }
      InsertByDateSorted(m, t);
      InsertByDateLowerBound(m, t, s[0].date);
      var rest := InsertByDate(m, t);
      var r := [s[0]] + rest;
      assert InsertByDate(m, s) == r;
      forall i, j | 0 <= i < j < |r| ensures r[i].date <= r[j].date {
        assert r[j] == rest[j - 1];
        if i > 0 {
          assert r[i] == rest[i - 1];
        }
      }
    }
  }

  /**
   * `sortMeetingsByDate`: a stable sort ascending by date (the source calls
   * the library's stable merge sort; the uniqueness lemma below shows that
   * every stable sort by date gives this same list).
   */
  function SortByDate(s: seq<Meeting>): (r: seq<Meeting>)
    ensures multiset(r) == multiset(s)
    ensures SortedByDate(r)
  {
    if s == [] then []
    else
      assert s == [s[0]] + s[1..];
      InsertByDateSorted(s[0], SortByDate(s[1..]));
      InsertByDate(s[0], SortByDate(s[1..]))
  }

  /** Inserting keeps the relative order of the meetings with any given date; `m` goes before those of its own date. */
  lemma {:induction false} InsertByDateStable(m: Meeting, s: seq<Meeting>, d: int)
    ensures DatedAt(InsertByDate(m, s), d) == (if m.date == d then [m] else []) + DatedAt(s, d)
  {
    if s == [] {
      ConsDatedAt(m, [], d);
      assert [m] + [] == [m];
    } else if m.date <= s[0].date {
      ConsDatedAt(m, s, d);
    } else {
      InsertByDateStable(m, s[1..], d);
      assert s == [s[0]] + s[1..];
      PassHeadStable(s[0], InsertByDate(m, s[1..]), s[1..], if m.date == d then [m] else [], d);
    }
  }

  /**
   * The step of `InsertByDateStable` where the inserted meetings `mine` go
   * past a head `x` of another date: `x` keeps its place in front of them.
   */
  lemma PassHeadStable(x: Meeting, rest: seq<Meeting>, t: seq<Meeting>, mine: seq<Meeting>, d: int)
    requires DatedAt(rest, d) == mine + DatedAt(t, d)
    requires x.date == d ==> mine == []
    ensures DatedAt([x] + rest, d) == mine + DatedAt([x] + t, d)
  {
    ConsDatedAt(x, rest, d);
    ConsDatedAt(x, t, d);
    if x.date == d {
      assert mine + DatedAt([x] + t, d) == DatedAt([x] + t, d);
    }
  }

  /** The sort is stable: meetings with equal dates keep their original relative order. */
  lemma {:induction false} SortByDateStable(s: seq<Meeting>, d: int)
    ensures DatedAt(SortByDate(s), d) == DatedAt(s, d)
  {
    if s != [] {
      SortByDateStable(s[1..], d);
      InsertByDateStable(s[0], SortByDate(s[1..]), d);
      DatedAtAppend([s[0]], s[1..], d);
      DatedAtAppend([], [s[0]], d);
      assert s == [s[0]] + s[1..];
    }
  }

  /** The meetings of a given date in a list with a known head. */
  lemma ConsDatedAt(x: Meeting, t: seq<Meeting>, d: int)
    ensures DatedAt([x] + t, d) == (if x.date == d then [x] else []) + DatedAt(t, d)
  {
    DatedAtAppend([x], t, d);
    DatedAtAppend([], [x], d);
  }

  /** Two date-sorted lists that hold the same meetings of every date start with the same date. */
  lemma HeadsShareDate(r1: seq<Meeting>, r2: seq<Meeting>)
    requires SortedByDate(r1) && SortedByDate(r2) && r1 != [] && r2 != []
    requires forall d :: DatedAt(r1, d) == DatedAt(r2, d)
    ensures r1[0].date == r2[0].date
  {
    var x, y := r1[0], r2[0];
    DatedAtMembers(r1, x.date);
    DatedAtMembers(r2, x.date);
    DatedAtMembers(r1, y.date);
    DatedAtMembers(r2, y.date);
    assert x in DatedAt(r2, x.date);
    assert y in DatedAt(r1, y.date);
  }

  /** Lists that agree on the meetings of every date are both empty or both not. */
  lemma AgreeingListsBothEmpty(r1: seq<Meeting>, r2: seq<Meeting>)
    requires forall d :: DatedAt(r1, d) == DatedAt(r2, d)
    ensures r1 == [] <==> r2 == []
  {
    if r1 != [] {
      DatedAtMembers(r1, r1[0].date);
      DatedAtMembers(r2, r1[0].date);
    }
    if r2 != [] {
      DatedAtMembers(r1, r2[0].date);
      DatedAtMembers(r2, r2[0].date);
    }
  }

  /** Two non-empty date-sorted lists that agree on the meetings of every date start with the same meeting. */
  lemma HeadsEqual(r1: seq<Meeting>, r2: seq<Meeting>)
    requires SortedByDate(r1) && SortedByDate(r2) && r1 != [] && r2 != []
    requires forall d :: DatedAt(r1, d) == DatedAt(r2, d)
    ensures r1[0] == r2[0]
  {
    HeadsShareDate(r1, r2);
    var x, y := r1[0], r2[0];
    assert r1 == [x] + r1[1..] && r2 == [y] + r2[1..];
    ConsDatedAt(x, r1[1..], x.date);
    ConsDatedAt(y, r2[1..], x.date);
    assert DatedAt(r1, x.date)[0] == x;
  }

  /** Lists with the same head that agree on the meetings of date `e` have tails that agree on them too. */
  lemma TailsAgree(r1: seq<Meeting>, r2: seq<Meeting>, e: int)
    requires r1 != [] && r2 != [] && r1[0] == r2[0]
    requires DatedAt(r1, e) == DatedAt(r2, e)
    ensures DatedAt(r1[1..], e) == DatedAt(r2[1..], e)
  {
    var x, t1, t2 := r1[0], r1[1..], r2[1..];
    assert r1 == [x] + t1 && r2 == [x] + t2;
    ConsDatedAt(x, t1, e);
    ConsDatedAt(x, t2, e);
    var front := if x.date == e then [x] else [];
    assert DatedAt(t1, e) == DatedAt(r1, e)[|front|..];
    assert DatedAt(t2, e) == DatedAt(r2, e)[|front|..];
  }

  /** Two date-sorted lists that agree on the order of the meetings of every date are the same list. */
  lemma {:induction false} SortedStableIsUnique(r1: seq<Meeting>, r2: seq<Meeting>)
    requires SortedByDate(r1) && SortedByDate(r2)
    requires forall d :: DatedAt(r1, d) == DatedAt(r2, d)
    ensures r1 == r2
    decreases |r1|
  {
    AgreeingListsBothEmpty(r1, r2);
    if r1 != [] {
      HeadsEqual(r1, r2);
      forall e ensures DatedAt(r1[1..], e) == DatedAt(r2[1..], e) {
        TailsAgree(r1, r2, e);
      }
      SortedStableIsUnique(r1[1..], r2[1..]);
      assert r1 == [r1[0]] + r1[1..] && r2 == [r2[0]] + r2[1..];
    }
  }

  /**
   * The sorted result is characterised without reference to any sorting
   * procedure: `r` is the sorted form of `s` exactly when `r` is ascending by
   * date and keeps the relative order of the meetings of every date.
   */
  lemma SortByDateCharacterised(s: seq<Meeting>, r: seq<Meeting>)
    ensures r == SortByDate(s) <==> SortedByDate(r) && forall d :: DatedAt(r, d) == DatedAt(s, d)
  {
    forall d ensures DatedAt(SortByDate(s), d) == DatedAt(s, d) {
      SortByDateStable(s, d);
    }
    if SortedByDate(r) && forall d :: DatedAt(r, d) == DatedAt(s, d) {
      SortedStableIsUnique(r, SortByDate(s));
    }
  }

  // ---------------------------------------------------------------- meetings on a day

  /**
   * `getFutureMeetingList(date)` as the source computes it: the past list is
   * searched only when `date` is strictly before now.
   */
  function DayListAsWritten(past: seq<Meeting>, future: seq<Meeting>, date: int, now: int): seq<Meeting> {
    SortByDate((if IsInPast(date, now) then OnDay(past, date) else []) + OnDay(future, date))
  }

  /** The intended result: every meeting of either list on that calendar day, sorted by date. */
  function DayList(past: seq<Meeting>, future: seq<Meeting>, date: int): seq<Meeting> {
    SortByDate(OnDay(past, date) + OnDay(future, date))
  }

  /** The intended day list holds exactly the meetings of either list on that day, in date order. */
  lemma DayListComplete(past: seq<Meeting>, future: seq<Meeting>, date: int)
    ensures SortedByDate(DayList(past, future, date))
    ensures forall m :: m in DayList(past, future, date) <==> (m in past || m in future) && AreSameDay(date, m.date)
  {
    var all := OnDay(past, date) + OnDay(future, date);
    OnDayMembers(past, date);
    OnDayMembers(future, date);
    forall m ensures m in DayList(past, future, date) <==> m in all {
      assert m in DayList(past, future, date) <==> m in multiset(all);
    }
  }

  /**
   * When the queried date is not before now, a past-list meeting on that same
   * day (earlier today, or recorded in the past list with a date still to
   * come) is left out by the source, though it is on the requested day.
   */
  lemma DayListAsWrittenMissesPastMeetings(past: seq<Meeting>, future: seq<Meeting>, date: int, now: int, m: Meeting)
    requires !IsInPast(date, now)
    requires m in past && m !in future && AreSameDay(date, m.date)
    ensures m !in DayListAsWritten(past, future, date, now)
    ensures m in DayList(past, future, date)
  {
    var written := OnDay(future, date);
    OnDayMembers(future, date);
    assert m !in multiset(written);
    assert m !in multiset(DayListAsWritten(past, future, date, now));
    DayListComplete(past, future, date);
  }

  /** When the queried date is before now the two agree. */
  lemma DayListAsWrittenAgreesBeforeNow(past: seq<Meeting>, future: seq<Meeting>, date: int, now: int)
    requires IsInPast(date, now)
    ensures DayListAsWritten(past, future, date, now) == DayList(past, future, date)
  {
  }
}
