/**
 Line numbers of the calls of a user agent: assign_linenum, call_find_linenum, call_set_current and the
 list handling of baresip/src/call.c, and the listing of ua_print_calls in baresip/src/ua.c.
 */
module LineNumbers {
  import opened Common

  const LINENUM_MIN: nat := 1
  const LINENUM_MAX: nat := 256

  /** A call object; id stands for its address. */
  datatype Call = Call(id: nat, linenum: nat)

  /** call_find_linenum */
  function FindLine(calls: seq<Call>, linenum: nat): (r: Option<Call>)
    ensures r.Some? ==> r.value in calls && r.value.linenum == linenum
  {
    if calls == [] then None
    else if calls[0].linenum == linenum then Some(calls[0])
    else FindLine(calls[1..], linenum)
  }

  lemma {:induction false} FreeLine(calls: seq<Call>, linenum: nat)
    requires FindLine(calls, linenum) == None
    ensures forall i :: 0 <= i < |calls| ==> calls[i].linenum != linenum
    decreases |calls|
  {
    if calls == [] {
    } else {
      FreeLine(calls[1..], linenum);
      forall i | 0 <= i < |calls| ensures calls[i].linenum != linenum {
        if i > 0 {
          assert calls[i] == calls[1..][i - 1];
        }
      }
    }
  }

  // ---------------------------------------------------------------- the list of calls

  predicate Distinct(calls: seq<Call>) {
    forall i, j :: 0 <= i < j < |calls| ==> calls[i].linenum != calls[j].linenum && calls[i].id != calls[j].id
  }

  /** What every operation keeps: different calls have different line numbers between 1 and 255. */
  predicate Inv(calls: seq<Call>) {
    && (forall i :: 0 <= i < |calls| ==> LINENUM_MIN <= calls[i].linenum < LINENUM_MAX)
    && Distinct(calls)
  }

  function Unlink(calls: seq<Call>, id: nat): seq<Call> {
    if calls == [] then []
    else if calls[0].id == id then calls[1..]
    else [calls[0]] + Unlink(calls[1..], id)
  }

  /** The least line number from num on that no call has. */
  function LeastFree(calls: seq<Call>, num: nat): (r: Option<nat>)
    requires LINENUM_MIN <= num <= LINENUM_MAX
    ensures r.Some? ==> num <= r.value < LINENUM_MAX && FindLine(calls, r.value) == None
    ensures forall n :: num <= n < (if r.Some? then r.value else LINENUM_MAX) ==> FindLine(calls, n).Some?
    decreases |calls|, LINENUM_MAX - num
  {
    if num == LINENUM_MAX then None
    else if FindLine(calls, num) == None then Some(num)
    else LeastFree(calls, num + 1)
  }

  function Alloc(calls: seq<Call>, id: nat): seq<Call> {
    match LeastFree(calls, LINENUM_MIN)
    case None => calls
    case Some(num) => calls + [Call(id, num)]
  }

  function MoveToTail(calls: seq<Call>, call: Call): seq<Call> { Unlink(calls, call.id) + [call] }

  /** The calls with a line number below n, by line number. */
  function Listing(calls: seq<Call>, n: nat): seq<Call>
    requires n >= LINENUM_MIN
    decreases |calls|, n
  {
    if n == LINENUM_MIN then []
    else
      var before := Listing(calls, n - 1);
      match FindLine(calls, n - 1)
      case None => before
      case Some(c) => before + [c]
  }

  predicate IsLine(x: nat) { LINENUM_MIN <= x }

  /** The line numbers 1 .. n - 1. */
  function LinesBelow(n: nat): set<nat> {
    set x: nat | x < n && IsLine(x)
  }

  function LinesOf(calls: seq<Call>): set<nat> {
    if calls == [] then {} else {calls[0].linenum} + LinesOf(calls[1..])
  }

  lemma {:induction false} UsedLine(calls: seq<Call>, x: nat)
    ensures x in LinesOf(calls) <==> FindLine(calls, x).Some?
    decreases |calls|
  {
    if calls == [] {
    } else {
      UsedLine(calls[1..], x);
    }
  }

  lemma {:induction false} NotFoundLine(calls: seq<Call>, n: nat)
    requires forall i :: 0 <= i < |calls| ==> calls[i].linenum != n
    ensures FindLine(calls, n) == None
    decreases |calls|
  {
    if calls == [] {
    } else {
      NotFoundLine(calls[1..], n);
    }
  }

  lemma {:induction false} LinesCount(calls: seq<Call>)
    requires Distinct(calls)
    ensures |LinesOf(calls)| == |calls|
    decreases |calls|
  {
    if calls == [] {
    } else {
      LinesCount(calls[1..]);
      NotFoundLine(calls[1..], calls[0].linenum);
      UsedLine(calls[1..], calls[0].linenum);
    }
  }

  lemma SubsetCount(a: set<nat>, b: set<nat>)
    requires a <= b
    ensures |a| <= |b| && (|a| == |b| ==> a == b)
  {
    assert b == a + (b - a);
    assert |b| == |a| + |b - a|;
  }

  lemma OneMoreLine(lines: set<nat>, n: nat)
    requires n > LINENUM_MIN
    ensures |lines * LinesBelow(n)| == |lines * LinesBelow(n - 1)| + if n - 1 in lines then 1 else 0
  {
    var below := lines * LinesBelow(n - 1);
    if n - 1 in lines {
      assert lines * LinesBelow(n) == below + {n - 1};
    } else {
      assert lines * LinesBelow(n) == below;
    }
  }

  lemma {:induction false} ListingCount(calls: seq<Call>, n: nat)
    requires LINENUM_MIN <= n
    ensures |Listing(calls, n)| == |LinesOf(calls) * LinesBelow(n)|
    decreases n
  {
    if n > LINENUM_MIN {
      ListingCount(calls, n - 1);
      OneMoreLine(LinesOf(calls), n);
      UsedLine(calls, n - 1);
    } else {
      assert LinesOf(calls) * LinesBelow(n) == {};
    }
  }

  lemma {:induction false} NoneAbove(calls: seq<Call>, n: nat, m: nat)
    requires LINENUM_MIN <= n <= m && LinesOf(calls) <= LinesBelow(n)
    ensures Listing(calls, n) == Listing(calls, m)
    decreases m
  {
    if n < m {
      NoneAbove(calls, n, m - 1);
      UsedLine(calls, m - 1);
    }
  }

  /** When as many calls as there are have been listed, the remaining line numbers add none. */
  lemma {:induction false} ListingComplete(calls: seq<Call>, n: nat)
    requires Inv(calls) && LINENUM_MIN <= n <= LINENUM_MAX && |Listing(calls, n)| >= |calls|
    ensures Listing(calls, n) == Listing(calls, LINENUM_MAX)
  {
    LinesCount(calls);
    ListingCount(calls, n);
    SubsetCount(LinesOf(calls) * LinesBelow(n), LinesOf(calls));
    assert LinesOf(calls) <= LinesBelow(n);
    NoneAbove(calls, n, LINENUM_MAX);
  }

  class UserAgent {
    var calls: seq<Call>

    constructor ()
      ensures calls == []
    {
      calls := [];
    }

    /** call_find_linenum */
    method FindLinenum(linenum: nat) returns (r: Option<Call>)
      ensures r == FindLine(calls, linenum)
    {
      var rest := calls;
      while rest != []
        invariant FindLine(rest, linenum) == FindLine(calls, linenum)
        decreases |rest|
      {
        if linenum == rest[0].linenum {
          return Some(rest[0]);
        }
        rest := rest[1..];
      }
      return None;
    }

    /** assign_linenum */
    method AssignLinenum() returns (r: Option<nat>)
      ensures r == LeastFree(calls, LINENUM_MIN)
    {
      var num := LINENUM_MIN;
      while num < LINENUM_MAX
        invariant LINENUM_MIN <= num <= LINENUM_MAX
        invariant LeastFree(calls, num) == LeastFree(calls, LINENUM_MIN)
      {
        var call := FindLinenum(num);
        if call == None {
          return Some(num);
        }
        num := num + 1;
      }
      return None;
    }

    /** The end of call_alloc: a new call goes to the tail, which makes it the current one. */
    method AllocCall(id: nat) returns (ok: bool)
      modifies this
      ensures calls == Alloc(old(calls), id) && ok == LeastFree(old(calls), LINENUM_MIN).Some?
    {
      var linenum := AssignLinenum();
      if linenum == None {
        return false;
      }
      calls := calls + [Call(id, linenum.value)];
      return true;
    }

    /** The destructor of a call takes it off the list. */
    method RemoveCall(id: nat)
      modifies this
      ensures calls == Unlink(old(calls), id)
    {
      var i := 0;
      while i < |calls| && calls[i].id != id
        invariant i <= |calls|
        invariant Unlink(calls, id) == calls[..i] + Unlink(calls[i..], id)
      {
        assert calls[i..][1..] == calls[i + 1..];
        assert calls[..i] + ([calls[i]] + Unlink(calls[i + 1..], id)) == calls[..i + 1] + Unlink(calls[i + 1..], id);
        i := i + 1;
      }
      if i < |calls| {
        assert calls[i..][1..] == calls[i + 1..];
        calls := calls[..i] + calls[i + 1..];
      }
    }

    /** call_set_current: the call moves to the tail. */
    method SetCurrent(call: Call)
      modifies this
      ensures calls == MoveToTail(old(calls), call)
    {
      RemoveCall(call.id);
      calls := calls + [call];
    }

    /** ua_print_calls: by ascending line number; it stops as soon as it has listed as many as there are. */
    method PrintCalls() returns (out: seq<Call>)
      requires Inv(calls)
      ensures out == Listing(calls, LINENUM_MAX)
    {
      var n := |calls|;
      out := [];
      var linenum := LINENUM_MIN;
      while linenum < LINENUM_MAX
        invariant LINENUM_MIN <= linenum <= LINENUM_MAX
        invariant out == Listing(calls, linenum)
      {
        var call := FindLinenum(linenum);
        linenum := linenum + 1;
        if call.Some? {
          out := out + [call.value];
        }
        if |out| >= n {
          ListingComplete(calls, linenum);
          break;
        }
      }
    }
  }

  // ---------------------------------------------------------------- runs

  datatype Event = New(id: nat) | Remove(id: nat) | Current(call: Call)

  /** A new call is a new object; only a call of the list is made current. */
  predicate Enabled(calls: seq<Call>, e: Event) {
    match e
    case New(id) => forall c :: c in calls ==> c.id != id
    case Remove(_) => true
    case Current(call) => call in calls
  }

  function Step(calls: seq<Call>, e: Event): seq<Call> {
    match e
    case New(id) => Alloc(calls, id)
    case Remove(id) => Unlink(calls, id)
    case Current(call) => MoveToTail(calls, call)
  }

  predicate Run(calls: seq<Call>, es: seq<Event>, t: seq<Call>)
    decreases |es|
  {
    if es == [] then calls == t else Enabled(calls, es[0]) && Run(Step(calls, es[0]), es[1..], t)
  }

  /** Unlinking removes at most the one call with the id. */
  lemma {:induction false} UnlinkAt(calls: seq<Call>, id: nat) returns (i: nat)
    ensures i <= |calls| && (forall j :: 0 <= j < i ==> calls[j].id != id) && (i < |calls| ==> calls[i].id == id)
    ensures Unlink(calls, id) == if i < |calls| then calls[..i] + calls[i + 1..] else calls
    decreases |calls|
  {
    i := 0;
    if calls != [] && calls[0].id != id {
      var k := UnlinkAt(calls[1..], id);
      i := k + 1;
      assert calls == [calls[0]] + calls[1..];
      if i < |calls| {
        assert calls[..i] + calls[i + 1..] == [calls[0]] + (calls[1..][..k] + calls[1..][k + 1..]);
      }
    }
  }

  lemma RemoveKeeps(calls: seq<Call>, i: nat)
    requires Inv(calls) && i < |calls|
    ensures Inv(calls[..i] + calls[i + 1..])
    ensures forall c :: c in calls[..i] + calls[i + 1..] <==> c in calls && c.id != calls[i].id
  {
    var t := calls[..i] + calls[i + 1..];
    forall k | 0 <= k < |t| ensures t[k] == calls[if k < i then k else k + 1] && t[k].id != calls[i].id {}
    forall c | c in calls && c.id != calls[i].id ensures c in t {
      var k :| 0 <= k < |calls| && calls[k] == c;
      assert t[if k < i then k else k - 1] == c;
    }
  }

  lemma UnlinkKeeps(calls: seq<Call>, id: nat)
    requires Inv(calls)
    ensures Inv(Unlink(calls, id))
    ensures forall c :: c in Unlink(calls, id) <==> c in calls && c.id != id
  {
    var i := UnlinkAt(calls, id);
    if i < |calls| {
      RemoveKeeps(calls, i);
    }
  }

  lemma AppendInv(calls: seq<Call>, call: Call)
    requires Inv(calls) && LINENUM_MIN <= call.linenum < LINENUM_MAX
    requires forall c :: c in calls ==> c.linenum != call.linenum && c.id != call.id
    ensures Inv(calls + [call])
  {
  }

  lemma StepInv(calls: seq<Call>, e: Event)
    requires Inv(calls) && Enabled(calls, e)
    ensures Inv(Step(calls, e))
  {
    match e {
      case New(id) =>
        var r := LeastFree(calls, LINENUM_MIN);
        if r.Some? {
          FreeLine(calls, r.value);
          AppendInv(calls, Call(id, r.value));
        }
      case Remove(id) => UnlinkKeeps(calls, id);
      case Current(call) =>
        UnlinkKeeps(calls, call.id);
        forall c | c in Unlink(calls, call.id) ensures c.linenum != call.linenum {
          var i :| 0 <= i < |calls| && calls[i] == c;
          var j :| 0 <= j < |calls| && calls[j] == call;
          assert i < j || j < i;
        }
        AppendInv(Unlink(calls, call.id), call);
    }
  }

  /** Over every run, line numbers stay distinct and in range. */
  lemma {:induction false} RunInv(calls: seq<Call>, es: seq<Event>, t: seq<Call>)
    requires Inv(calls) && Run(calls, es, t)
    ensures Inv(t)
    decreases |es|
  {
    if es == [] {
    } else {
      StepInv(calls, es[0]);
      RunInv(Step(calls, es[0]), es[1..], t);
    }
  }

  /** Making a call current changes neither the calls nor their line numbers, only their order. */
  lemma CurrentKeepsCalls(calls: seq<Call>, call: Call)
    requires Inv(calls) && call in calls
    ensures forall c :: c in MoveToTail(calls, call) <==> c in calls
    ensures MoveToTail(calls, call)[|MoveToTail(calls, call)| - 1] == call
  {
    UnlinkKeeps(calls, call.id);
    forall c | c in calls && c.id == call.id ensures c == call {
      var i :| 0 <= i < |calls| && calls[i] == c;
      var j :| 0 <= j < |calls| && calls[j] == call;
      assert !(i < j) && !(j < i);
    }
  }

  // ---------------------------------------------------------------- pigeonhole

  lemma {:induction false} LinesBelowCount(n: nat)
    requires n >= 1
    ensures |LinesBelow(n)| == n - 1
    decreases n
  {
    if n > 1 {
      LinesBelowCount(n - 1);
      assert LinesBelow(n) == LinesBelow(n - 1) + {n - 1};
    } else {
      assert LinesBelow(1) == {};
    }
  }

  lemma LinesInRange(calls: seq<Call>)
    requires Inv(calls)
    ensures LinesOf(calls) <= LinesBelow(LINENUM_MAX)
  {
    forall x | x in LinesOf(calls) ensures x in LinesBelow(LINENUM_MAX) {
      UsedLine(calls, x);
      var c := FindLine(calls, x).value;
      var i :| 0 <= i < |calls| && calls[i] == c;
    }
  }

  lemma NoneFreeMeansAllUsed(calls: seq<Call>)
    ensures LeastFree(calls, LINENUM_MIN) == None <==> LinesBelow(LINENUM_MAX) <= LinesOf(calls)
  {
    var r := LeastFree(calls, LINENUM_MIN);
    if r.Some? {
      UsedLine(calls, r.value);
      assert r.value in LinesBelow(LINENUM_MAX);
    } else {
      forall x | x in LinesBelow(LINENUM_MAX) ensures x in LinesOf(calls) {
        UsedLine(calls, x);
      }
    }
  }

  /** No free line number exactly when 255 calls exist; there are never more. */
  lemma {:induction false} FailsExactlyAt255(calls: seq<Call>)
    requires Inv(calls)
    ensures |calls| <= 255
    ensures LeastFree(calls, LINENUM_MIN) == None <==> |calls| == 255
  {
    var used, all := LinesOf(calls), LinesBelow(LINENUM_MAX);
    LinesCount(calls);
    LinesInRange(calls);
    LinesBelowCount(LINENUM_MAX);
    SubsetCount(used, all);
    NoneFreeMeansAllUsed(calls);
  }

  // ---------------------------------------------------------------- new calls and free numbers

  predicate HasLine(calls: seq<Call>, n: nat) { exists i :: 0 <= i < |calls| && calls[i].linenum == n }

  /** n is the number a new call gets: no call has it, and every smaller one is taken. */
  ghost predicate IsLeastFree(calls: seq<Call>, n: nat) {
    1 <= n <= 255 && !HasLine(calls, n) && forall m :: 1 <= m < n ==> HasLine(calls, m)
  }

  lemma FindsLine(calls: seq<Call>, n: nat)
    ensures FindLine(calls, n).Some? <==> HasLine(calls, n)
  {
    if FindLine(calls, n).Some? {
      assert FindLine(calls, n).value in calls;
    } else {
      FreeLine(calls, n);
    }
  }

  /** A new call goes to the end of the list with the least number that no call has, unless there are 255 calls. */
  lemma NewCallExactly(calls: seq<Call>, id: nat)
    requires Inv(calls)
    ensures |calls| == 255 ==> Step(calls, New(id)) == calls
    ensures |calls| < 255 ==> exists n :: IsLeastFree(calls, n) && Step(calls, New(id)) == calls + [Call(id, n)]
  {
    FailsExactlyAt255(calls);
    var r := LeastFree(calls, LINENUM_MIN);
    if r.Some? {
      FindsLine(calls, r.value);
      forall m | 1 <= m < r.value ensures HasLine(calls, m) {
        FindsLine(calls, m);
      }
      assert IsLeastFree(calls, r.value);
    }
  }

  /** Removing a new call restores the list. */
  lemma RemoveUndoesNew(calls: seq<Call>, id: nat)
    requires Inv(calls) && |calls| < 255 && Enabled(calls, New(id))
    ensures Step(Step(calls, New(id)), Remove(id)) == calls
  {
    NewCallExactly(calls, id);
    var t := Step(calls, New(id));
    var i := UnlinkAt(t, id);
    assert forall j :: 0 <= j < |calls| ==> t[j] == calls[j] && calls[j] in calls;
    assert i == |calls| by {
      assert t[|calls|].id == id;
    }
    assert t[..|calls|] + t[|calls| + 1..] == calls;
  }

  lemma LineKept(calls: seq<Call>, t: seq<Call>, call: Call, n: nat)
    requires Inv(calls) && call in calls && forall c :: c in t <==> c in calls && c.id != call.id
    ensures HasLine(calls, n) && n != call.linenum ==> HasLine(t, n)
  {
    var k :| 0 <= k < |calls| && calls[k] == call;
    if j :| 0 <= j < |calls| && calls[j].linenum == n {
      if n != call.linenum {
        assert j < k || k < j;
        assert calls[j] in t;
      }
    }
  }

  lemma LineGone(calls: seq<Call>, t: seq<Call>, call: Call, n: nat)
    requires Inv(calls) && call in calls && forall c :: c in t <==> c in calls && c.id != call.id
    ensures HasLine(t, n) ==> HasLine(calls, n) && n != call.linenum
  {
    var k :| 0 <= k < |calls| && calls[k] == call;
    if i :| 0 <= i < |t| && t[i].linenum == n {
      assert t[i] in calls && t[i].id != call.id;
      var j :| 0 <= j < |calls| && calls[j] == t[i];
      assert j < k || k < j;
    }
  }

  lemma LineAfterRemoval(calls: seq<Call>, call: Call, n: nat)
    requires Inv(calls) && call in calls
    ensures HasLine(Unlink(calls, call.id), n) <==> HasLine(calls, n) && n != call.linenum
  {
    UnlinkKeeps(calls, call.id);
    LineKept(calls, Unlink(calls, call.id), call, n);
    LineGone(calls, Unlink(calls, call.id), call, n);
  }

  /** The number of a call that goes away is free again: the next call gets it, unless a smaller one is free. */
  lemma NumberIsReused(calls: seq<Call>, call: Call, n: nat)
    requires Inv(calls) && call in calls && (IsLeastFree(calls, n) || (n == 256 && |calls| == 255))
    ensures IsLeastFree(Step(calls, Remove(call.id)), if call.linenum < n then call.linenum else n)
  {
    FailsExactlyAt255(calls);
    var j :| 0 <= j < |calls| && calls[j] == call;
    forall m ensures HasLine(Unlink(calls, call.id), m) <==> HasLine(calls, m) && m != call.linenum {
      LineAfterRemoval(calls, call, m);
    }
    forall m | 1 <= m < n ensures HasLine(calls, m) {
      FindsLine(calls, m);
    }
  }

  // ---------------------------------------------------------------- the listing

  lemma {:induction false} FoundLine(calls: seq<Call>, c: Call)
    requires Distinct(calls) && c in calls
    ensures FindLine(calls, c.linenum) == Some(c)
    decreases |calls|
  {
    var i :| 0 <= i < |calls| && calls[i] == c;
    if i == 0 {
    } else {
      assert calls[1..][i - 1] == c;
      FoundLine(calls[1..], c);
    }
  }

  lemma {:induction false} ListingOrder(calls: seq<Call>, n: nat)
    requires Inv(calls) && LINENUM_MIN <= n
    ensures forall i :: 0 <= i < |Listing(calls, n)| ==> Listing(calls, n)[i] in calls && Listing(calls, n)[i].linenum < n
    ensures forall i, j :: 0 <= i < j < |Listing(calls, n)| ==> Listing(calls, n)[i].linenum < Listing(calls, n)[j].linenum
    ensures forall c :: c in calls && c.linenum < n ==> c in Listing(calls, n)
    decreases n
  {
    if n > LINENUM_MIN {
      ListingOrder(calls, n - 1);
      forall c | c in calls && c.linenum == n - 1 ensures FindLine(calls, n - 1) == Some(c) {
        FoundLine(calls, c);
      }
    } else {
      forall c | c in calls ensures c.linenum >= n {
        var i :| 0 <= i < |calls| && calls[i] == c;
      }
    }
  }

  /** The listing shows every call exactly once, by ascending line number. */
  lemma {:induction false} ListingIsExact(calls: seq<Call>)
    requires Inv(calls)
    ensures var out := Listing(calls, LINENUM_MAX);
            && |out| == |calls|
            && (forall c :: c in out <==> c in calls)
            && (forall i, j :: 0 <= i < j < |out| ==> out[i].linenum < out[j].linenum)
  {
    LinesCount(calls);
    LinesInRange(calls);
    ListingCount(calls, LINENUM_MAX);
    assert LinesOf(calls) * LinesBelow(LINENUM_MAX) == LinesOf(calls);
    ListingOrder(calls, LINENUM_MAX);
    forall c | c in calls ensures c.linenum < LINENUM_MAX {
      var i :| 0 <= i < |calls| && calls[i] == c;
    }
  }
}
