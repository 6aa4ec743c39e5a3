/**
 The credential cache of restund/src/db.c on the hash table of re/src/hash/hash.c.

 The database thread builds a new table account by account and swaps it in when the backend has
 delivered all of them; lookups use whatever table is in place.
 */
module CredentialCache {
  import opened Common

  type Ha1 = seq<bv8>

  datatype Account = Account(username: string, ha1: Ha1)

  // ---------------------------------------------------------------- table size

  function Pow2(x: nat): nat {
    if x == 0 then 1 else 2 * Pow2(x - 1)
  }

  lemma {:induction false} PowMonotone(a: nat, b: nat)
    requires a <= b
    ensures Pow2(a) <= Pow2(b)
    decreases b
  {
    if a < b {
      PowMonotone(a, b - 1);
    }
  }

  lemma PowAdd8(x: nat)
    ensures Pow2(x + 8) == 256 * Pow2(x)
  {
    assert Pow2(x + 2) == 4 * Pow2(x);
    assert Pow2(x + 4) == 4 * Pow2(x + 2);
    assert Pow2(x + 6) == 4 * Pow2(x + 4);
    assert Pow2(x + 8) == 4 * Pow2(x + 6);
  }

  lemma Powers()
    ensures Pow2(2) == 4 && Pow2(31) == 0x8000_0000
  {
    PowAdd8(0);
    PowAdd8(8);
    PowAdd8(16);
    assert Pow2(31) == 128 * Pow2(24) by {
      assert Pow2(26) == 4 * Pow2(24);
      assert Pow2(28) == 4 * Pow2(26);
      assert Pow2(30) == 4 * Pow2(28);
    }
  }

  /** The table size for n accounts.  Above 2^31 the 32-bit shift of the source is undefined. */
  method TableSize(n: nat) returns (sz: nat)
    requires n <= 0x8000_0000
    ensures exists x :: x <= 31 && sz == Pow2(x)
    ensures sz >= 4 && sz >= n && (n > 4 ==> sz < 2 * n)
  {
    var x := 2;
    Powers();
    while Pow2(x) < n
      invariant 2 <= x <= 31
      invariant x > 2 ==> Pow2(x) < 2 * n
      decreases 31 - x
    {
      x := x + 1;
      PowMonotone(2, x);
    }
    PowMonotone(2, x);
    sz := Pow2(x);
  }

  // ---------------------------------------------------------------- the hash table

  /** Bitwise and of two unsigned numbers. */
  function And(a: nat, b: nat): (r: nat)
    ensures r <= b
  {
    if a == 0 || b == 0 then 0
    else 2 * And(a / 2, b / 2) + (if a % 2 == 1 && b % 2 == 1 then 1 else 0)
  }

  /** The bucket of a hash key: key & (bsize - 1).  It is always inside the table. */
  function Index(key: nat, bsize: nat): (i: nat)
    requires bsize > 0
    ensures i < bsize
  {
    And(key, bsize - 1)
  }

  lemma MultipleInRange(m: nat, d: int, x: int)
    requires x == m * d && 0 < m + x < 2 * m
    ensures x == 0
  {
    assert d > 0 ==> m * d >= m;
    assert d < 0 ==> m * d <= -(m as int);
  }

  lemma RemainderOf(a: nat, m: nat, q: nat, r: nat)
    requires a == m * q + r && r < m
    ensures a % m == r
  {
    assert a == m * (a / m) + a % m;
    assert m * (q - a / m) == m * q - m * (a / m);
    MultipleInRange(m, q - a / m, a % m - r);
  }

  lemma HalfRemainder(key: nat, p: nat)
    requires p > 0
    ensures key % (2 * p) == 2 * (key / 2 % p) + key % 2
  {
    var h := key / 2;
    assert h == p * (h / p) + h % p;
    assert key == 2 * p * (h / p) + (2 * (h % p) + key % 2);
    RemainderOf(key, 2 * p, h / p, 2 * (h % p) + key % 2);
  }

  /** In a table of 2^x buckets the bucket is the remainder of the key, so every bucket is in use. */
  lemma {:induction false} IndexIsRemainder(key: nat, x: nat)
    ensures Pow2(x) > 0 && Index(key, Pow2(x)) == key % Pow2(x)
    decreases x
  {
    if x == 0 {
    } else {
      var p := Pow2(x - 1);
      IndexIsRemainder(key / 2, x - 1);
      assert (2 * p - 1) / 2 == p - 1;
      HalfRemainder(key, p);
      if key != 0 {
        assert And(key, 2 * p - 1) == 2 * And(key / 2, p - 1) + key % 2;
      }
    }
  }

  type Hash = string -> nat

  /** struct hash: bsize is the number of buckets. */
  datatype Table = Table(buckets: seq<seq<Account>>) {
    predicate Valid() { |buckets| > 0 }

    /** The list hash_append appends to and hash_lookup searches. */
    function Bucket(key: nat): seq<Account>
      requires Valid()
    {
      buckets[Index(key, |buckets|)]
    }

    /** hash_append */
    function Append(key: nat, acc: Account): (t: Table)
      requires Valid()
      ensures t.Valid() && |t.buckets| == |buckets|
    {
      var i := Index(key, |buckets|);
      Table(buckets[i := buckets[i] + [acc]])
    }
  }

  /** The first account with a user name, by linear search. */
  function FirstMatch(accs: seq<Account>, username: string): Option<Account> {
    if accs == [] then None
    else if accs[0].username == username then Some(accs[0])
    else FirstMatch(accs[1..], username)
  }

  predicate NoneBefore(accs: seq<Account>, n: nat, username: string)
    requires n <= |accs|
  {
    forall j :: 0 <= j < n ==> accs[j].username != username
  }

  /** a is the first of the accounts with the name. */
  ghost predicate IsFirst(accs: seq<Account>, username: string, a: Account) {
    exists i :: 0 <= i < |accs| && accs[i] == a && a.username == username && NoneBefore(accs, i, username)
  }

  predicate NoneNamed(accs: seq<Account>, username: string) { NoneBefore(accs, |accs|, username) }

  lemma FirstOfRest(accs: seq<Account>, username: string, a: Account)
    requires accs != [] && accs[0].username != username
    ensures IsFirst(accs[1..], username, a) <==> IsFirst(accs, username, a)
  {
    var rest := accs[1..];
    if IsFirst(rest, username, a) {
      var i :| 0 <= i < |rest| && rest[i] == a && a.username == username && NoneBefore(rest, i, username);
      assert accs[i + 1] == a;
      forall j | 0 <= j < i + 1 ensures accs[j].username != username {
        assert j > 0 ==> accs[j] == rest[j - 1];
      }
      assert NoneBefore(accs, i + 1, username);
    }
    if IsFirst(accs, username, a) {
      var i :| 0 <= i < |accs| && accs[i] == a && a.username == username && NoneBefore(accs, i, username);
      assert rest[i - 1] == a && NoneBefore(rest, i - 1, username);
    }
  }

  /** The search finds the first account with the name, and nothing exactly when there is none. */
  lemma {:induction false} FirstMatchExactly(accs: seq<Account>, username: string)
    ensures FirstMatch(accs, username) == None <==> NoneNamed(accs, username)
    ensures forall a :: FirstMatch(accs, username) == Some(a) <==> IsFirst(accs, username, a)
    decreases |accs|
  {
    if accs == [] {
    } else {
      var rest := accs[1..];
      FirstMatchExactly(rest, username);
      assert accs == [accs[0]] + rest;
      if accs[0].username == username {
        assert NoneBefore(accs, 0, username);
      } else {
        forall a ensures IsFirst(rest, username, a) <==> IsFirst(accs, username, a) {
          FirstOfRest(accs, username, a);
        }
      }
    }
  }

  /** list_apply with hash_cmp_handler over one bucket */
  method SearchBucket(bucket: seq<Account>, username: string) returns (r: Option<Account>)
    ensures r == FirstMatch(bucket, username)
    ensures r == None ==> NoneNamed(bucket, username)
    ensures r.Some? ==> IsFirst(bucket, username, r.value)
  {
    var rest := bucket;
    FirstMatchExactly(bucket, username);
    while rest != []
      invariant FirstMatch(rest, username) == FirstMatch(bucket, username)
      decreases |rest|
    {
      if rest[0].username == username {
        return Some(rest[0]);
      }
      rest := rest[1..];
    }
    return None;
  }

  /** The accounts that fall in one bucket, in their order. */
  function InBucket(accs: seq<Account>, hash: Hash, bsize: nat, i: nat): seq<Account>
    requires bsize > 0
  {
    if accs == [] then []
    else
      var n := |accs| - 1;
      var before := InBucket(accs[..n], hash, bsize, i);
      if Index(hash(accs[n].username), bsize) == i then before + [accs[n]] else before
  }

  /** The table holds exactly these accounts. */
  ghost predicate Holds(t: Table, accs: seq<Account>, hash: Hash) {
    && t.Valid()
    && forall i :: 0 <= i < |t.buckets| ==> t.buckets[i] == InBucket(accs, hash, |t.buckets|, i)
  }

  /** hash_alloc */
  function Empty(bsize: nat): (t: Table)
    requires bsize > 0
    ensures t.Valid() && |t.buckets| == bsize && forall i :: 0 <= i < bsize ==> t.buckets[i] == []
  {
    Table(seq(bsize, _ => []))
  }

  lemma EmptyHolds(bsize: nat, hash: Hash)
    requires bsize > 0
    ensures Holds(Empty(bsize), [], hash)
  {
  }

  lemma AppendHolds(t: Table, accs: seq<Account>, hash: Hash, acc: Account)
    requires Holds(t, accs, hash)
    ensures Holds(t.Append(hash(acc.username), acc), accs + [acc], hash)
  {
    var t1 := t.Append(hash(acc.username), acc);
    assert (accs + [acc])[..|accs|] == accs;
    forall i | 0 <= i < |t1.buckets|
      ensures t1.buckets[i] == InBucket(accs + [acc], hash, |t1.buckets|, i)
    {
      assert t.buckets[i] == InBucket(accs, hash, |t.buckets|, i);
    }
  }

  lemma {:induction false} FirstMatchAppend(a: seq<Account>, b: seq<Account>, username: string)
    ensures FirstMatch(a + b, username)
            == if FirstMatch(a, username).Some? then FirstMatch(a, username) else FirstMatch(b, username)
    decreases |a|
  {
    if a == [] {
      assert a + b == b;
    } else {
      assert (a + b)[1..] == a[1..] + b;
      FirstMatchAppend(a[1..], b, username);
    }
  }

  /** Searching the right bucket finds what a linear search of all accounts finds. */
  lemma {:induction false} BucketSearchIsLinearSearch(accs: seq<Account>, hash: Hash, bsize: nat, username: string)
    requires bsize > 0
    ensures FirstMatch(InBucket(accs, hash, bsize, Index(hash(username), bsize)), username) == FirstMatch(accs, username)
    decreases |accs|
  {
    if accs == [] {
    } else {
      var n := |accs| - 1;
      var init, last := accs[..n], [accs[n]];
      BucketSearchIsLinearSearch(init, hash, bsize, username);
      assert accs == init + last;
      FirstMatchAppend(init, last, username);
      FirstMatchAppend(InBucket(init, hash, bsize, Index(hash(username), bsize)), last, username);
    }
  }

  // ---------------------------------------------------------------- synchronisation

  /** One account as the backend reports it; stored is what account_handler does with it. */
  datatype Report = Report(acc: Account, stored: bool)

  /** The outcome of the backend calls of one synchronisation. */
  datatype Sync = NoBackend | CountFailed | NoMemory(n: nat) | Listed(n: nat, reports: seq<Report>, complete: bool)

  function Stored(reports: seq<Report>): seq<Account> {
    if reports == [] then []
    else
      var n := |reports| - 1;
      if reports[n].stored then Stored(reports[..n]) + [reports[n].acc] else Stored(reports[..n])
  }

  predicate NoneStoredBefore(reports: seq<Report>, n: nat, username: string)
    requires n <= |reports|
  {
    forall j :: 0 <= j < n && reports[j].stored ==> reports[j].acc.username != username
  }

  /** a is in the first of the reports with the name that account_handler stores. */
  ghost predicate FirstStored(reports: seq<Report>, username: string, a: Account) {
    exists i :: 0 <= i < |reports| && reports[i] == Report(a, true) && a.username == username && NoneStoredBefore(reports, i, username)
  }

  predicate NoneStored(reports: seq<Report>, username: string) { NoneStoredBefore(reports, |reports|, username) }

  lemma FirstStoredInit(reports: seq<Report>, username: string, a: Account)
    requires reports != []
    ensures var n := |reports| - 1;
            FirstStored(reports, username, a) <==>
            || FirstStored(reports[..n], username, a)
            || (NoneStored(reports[..n], username) && reports[n] == Report(a, true) && a.username == username)
  {
    var n := |reports| - 1;
    var init := reports[..n];
    if FirstStored(reports, username, a) {
      var i :| 0 <= i < |reports| && reports[i] == Report(a, true) && a.username == username && NoneStoredBefore(reports, i, username);
      if i < n {
        assert init[i] == Report(a, true) && NoneStoredBefore(init, i, username);
      }
    }
    if FirstStored(init, username, a) {
      var i :| 0 <= i < |init| && init[i] == Report(a, true) && a.username == username && NoneStoredBefore(init, i, username);
      assert reports[i] == Report(a, true) && NoneStoredBefore(reports, i, username);
    }
  }

  /** A search of the stored accounts, told by the reports alone. */
  lemma {:induction false} StoredExactly(reports: seq<Report>, username: string)
    ensures FirstMatch(Stored(reports), username) == None <==> NoneStored(reports, username)
    ensures forall a :: FirstMatch(Stored(reports), username) == Some(a) <==> FirstStored(reports, username, a)
    decreases |reports|
  {
    if reports == [] {
    } else {
      var n := |reports| - 1;
      var init, r := reports[..n], reports[n];
      StoredExactly(init, username);
      FirstMatchAppend(Stored(init), [r.acc], username);
      assert reports == init + [r];
      forall a ensures FirstMatch(Stored(reports), username) == Some(a) <==> FirstStored(reports, username, a) {
        FirstStoredInit(reports, username, a);
      }
    }
  }

  class Credentials {
    const hash: Hash
    var ht: Option<Table>
    var run: bool
    ghost var accs: seq<Account>  // the accounts of the last complete synchronisation

    ghost predicate Valid()
      reads this
    {
      match ht
      case None => accs == []
      case Some(t) => Holds(t, accs, hash)
    }

    constructor (h: Hash)
      ensures Valid() && hash == h && accs == [] && ht == None && !run
    {
      hash, ht, run, accs := h, None, false, [];
    }

    /** sync_credentials */
    method SyncCredentials(sync: Sync) returns (ok: bool)
      requires Valid() && (sync.NoMemory? || sync.Listed? ==> sync.n <= 0x8000_0000)
      modifies `ht, `accs
      ensures Valid() && (ok <==> sync.NoBackend? || (sync.Listed? && sync.complete))
      ensures sync.Listed? && sync.complete ==> accs == Stored(sync.reports)
      ensures !(sync.Listed? && sync.complete) ==> ht == old(ht) && accs == old(accs)
    {
      if sync.NoBackend? {
        return true;
      }
      if sync.CountFailed? {
        return false;
      }
      var sz := TableSize(sync.n);
      if sync.NoMemory? {
        return false;
      }
      var table := Empty(sz);
      EmptyHolds(sz, hash);
      var i := 0;
      while i < |sync.reports|
        invariant 0 <= i <= |sync.reports|
        invariant Holds(table, Stored(sync.reports[..i]), hash)
        invariant ht == old(ht) && accs == old(accs)
      {
        var report := sync.reports[i];
        assert sync.reports[..i + 1][..i] == sync.reports[..i];
        if report.stored {
          AppendHolds(table, Stored(sync.reports[..i]), hash, report.acc);
          table := table.Append(hash(report.acc.username), report.acc);
        }
        i := i + 1;
      }
      assert sync.reports[..i] == sync.reports;
      if !sync.complete {
        return false;
      }
      ht := Some(table);
      accs := Stored(sync.reports);
      return true;
    }

    /**
     restund_get_ha1; auth is the answer of the authentication handler, if there is one.  Without it the key is that
     of the first account with the name, and there is none exactly when the thread does not run or no account has it.
     */
    method GetHa1(username: string, auth: Option<Ha1>) returns (r: Option<Ha1>)
      requires Valid()
      ensures auth.Some? ==> r == auth
      ensures auth == None ==> (r == None <==> !run || NoneNamed(accs, username))
      ensures auth == None && r.Some? ==> exists a :: IsFirst(accs, username, a) && r.value == a.ha1
    {
      FirstMatchExactly(accs, username);
      if auth.Some? {
        return auth;
      }
      if !run {
        return None;
      }
      if ht == None {
        return None;
      }
      var bucket := ht.value.Bucket(hash(username));
      BucketSearchIsLinearSearch(accs, hash, |ht.value.buckets|, username);
      var acc := SearchBucket(bucket, username);
      return match acc case None => None case Some(a) => Some(a.ha1);
    }

    /** The credential part of restund_db_close. */
    method Close()
      modifies this
      ensures Valid() && accs == [] && ht == None && !run
    {
      run, ht, accs := false, None, [];
    }
  }

  // ---------------------------------------------------------------- runs

  /** The cache as two threads see it: the table in place, and the one the database thread is filling. */
  datatype State = State(live: Option<Table>, building: Option<Table>, closed: bool)

  /** Close is restund_db_close: it waits for the database thread, which then never synchronises again. */
  datatype Event = Begin(bsize: nat) | Add(report: Report) | Complete | Abort | Close

  predicate Enabled(s: State, e: Event) {
    match e
    case Begin(bsize) => s.building == None && bsize > 0 && !s.closed
    case Add(_) => s.building.Some? && s.building.value.Valid()
    case Complete => s.building.Some?
    case Abort => s.building.Some?
    case Close => s.building == None
  }

  function Step(s: State, e: Event, hash: Hash): State
    requires Enabled(s, e)
  {
    match e
    case Begin(bsize) => s.(building := Some(Empty(bsize)))
    case Add(report) =>
      s.(building := if report.stored then Some(s.building.value.Append(hash(report.acc.username), report.acc)) else s.building)
    case Complete => s.(live := s.building, building := None)
    case Abort => s.(building := None)
    case Close => s.(live := None, closed := true)
  }

  predicate Run(s: State, es: seq<Event>, t: State, hash: Hash)
    decreases |es|
  {
    if es == [] then s == t else Enabled(s, es[0]) && Run(Step(s, es[0], hash), es[1..], t, hash)
  }

  /** What the backend has reported since the last synchronisation began. */
  function Reported(es: seq<Event>): seq<Report> {
    if es == [] then []
    else
      var before, e := es[..|es| - 1], es[|es| - 1];
      match e
      case Begin(_) => []
      case Add(report) => Reported(before) + [report]
      case _ => Reported(before)
  }

  /** The reports of the last synchronisation that was completed; none before the first one and after the close. */
  function InForce(es: seq<Event>): seq<Report> {
    if es == [] then []
    else
      var before, e := es[..|es| - 1], es[|es| - 1];
      match e
      case Complete => Reported(before)
      case Close => []
      case _ => InForce(before)
  }

  /** After the events done: the tables hold what the events say. */
  ghost predicate Inv(done: seq<Event>, s: State, hash: Hash) {
    && (match s.live case None => Stored(InForce(done)) == [] case Some(t) => Holds(t, Stored(InForce(done)), hash))
    && (s.building.Some? ==> Holds(s.building.value, Stored(Reported(done)), hash))
    && (s.closed ==> s.live == None && s.building == None)
    && (s.closed <==> Close in done)
  }

  lemma {:induction false} StepInv(done: seq<Event>, s: State, e: Event, hash: Hash)
    requires Inv(done, s, hash) && Enabled(s, e)
    ensures Inv(done + [e], Step(s, e, hash), hash)
  {
    assert (done + [e])[..|done|] == done;
    match e {
      case Begin(bsize) => EmptyHolds(bsize, hash);
      case Add(report) =>
        var reports := Reported(done);
        assert (reports + [report])[..|reports|] == reports;
        if report.stored {
          AppendHolds(s.building.value, Stored(reports), hash, report.acc);
        }
      case _ =>
    }
  }

  lemma {:induction false} RunInv(done: seq<Event>, s: State, es: seq<Event>, t: State, hash: Hash)
    requires Inv(done, s, hash) && Run(s, es, t, hash)
    ensures Inv(done + es, t, hash)
    decreases |es|
  {
    if es == [] {
      assert done + es == done;
    } else {
      StepInv(done, s, es[0], hash);
      RunInv(done + [es[0]], Step(s, es[0], hash), es[1..], t, hash);
      assert done + [es[0]] + es[1..] == done + es;
    }
  }

  /** A lookup in the table in place. */
  function Lookup(live: Option<Table>, username: string, hash: Hash): Option<Account>
    requires live.Some? ==> live.value.Valid()
  {
    if live == None then None else FirstMatch(live.value.Bucket(hash(username)), username)
  }

  function Init(): State { State(None, None, false) }

  /**
   At any moment of any run, also in the middle of a synchronisation, a lookup finds an account exactly when it is in
   the first stored report with that name of the last completed synchronisation, and nothing when there is none:
   never a mix of two lists, and nothing after the close.
   */
  lemma {:induction false} LookupSeesLastSync(es: seq<Event>, t: State, hash: Hash, username: string)
    requires Run(Init(), es, t, hash)
    ensures t.live.Some? ==> t.live.value.Valid()
    ensures Lookup(t.live, username, hash) == None <==> NoneStored(InForce(es), username)
    ensures forall a :: Lookup(t.live, username, hash) == Some(a) <==> FirstStored(InForce(es), username, a)
    ensures Close in es ==> Lookup(t.live, username, hash) == None
  {
    RunInv([], Init(), es, t, hash);
    assert [] + es == es;
    StoredExactly(InForce(es), username);
    if t.live.Some? {
      BucketSearchIsLinearSearch(Stored(InForce(es)), hash, |t.live.value.buckets|, username);
    }
  }
}
