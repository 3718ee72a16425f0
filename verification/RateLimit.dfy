/**
  The per-address rate limiter (lucpd/src/lucpd_utils.c, lines 13-17 and 86-135): a
  table with one address per hash bucket, against a plain map from address to the
  time of its last grant.
 */
module RateLimit {

  const RATE_LIMIT_SECONDS := 3
  const IP_HASH_SIZE := 1024
  const INET_ADDRSTRLEN := 16
  const UINT_RANGE := 0x1_0000_0000

  /** A char of a C string, signed as on the usual targets. */
  type Char = c: int | -128 <= c < 128

  predicate NoNul(s: seq<Char>) {
    0 !in s
  }

  type Address = s: seq<Char> | NoNul(s) witness []

  // ---- The hash ----

  function Pow33(n: nat): nat {
    if n == 0 then 1 else 33 * Pow33(n - 1)
  }

  /** The base-33 polynomial of the characters, over unbounded integers. */
  function Polynomial(s: seq<Char>): int {
    if s == [] then 0 else s[0] * Pow33(|s| - 1) + Polynomial(s[1..])
  }

  function Bucket(s: seq<Char>): (b: nat)
    ensures b < IP_HASH_SIZE
  {
    Polynomial(s) % IP_HASH_SIZE
  }

  lemma {:induction false} PolynomialAppend(s: seq<Char>, c: Char)
    ensures Polynomial(s + [c]) == 33 * Polynomial(s) + c
  {
    if s == [] {
      assert [c][1..] == [];
      assert Pow33(0) == 1;
    } else {
      PolynomialAppend(s[1..], c);
      assert (s + [c])[1..] == s[1..] + [c];
      assert s[0] * Pow33(|s|) == 33 * (s[0] * Pow33(|s| - 1));
    }
  }

  lemma Congruent(a: int, b: int, k: int)
    requires a == b + IP_HASH_SIZE * k
    ensures a % IP_HASH_SIZE == b % IP_HASH_SIZE
  {
    assert a % IP_HASH_SIZE - b % IP_HASH_SIZE == IP_HASH_SIZE * (k - a / IP_HASH_SIZE + b / IP_HASH_SIZE);
  }

  /** A 32-bit wrap does not show in the low ten bits. */
  lemma HashStep(hash: int, p: int, c: int)
    requires 0 <= hash < UINT_RANGE && hash % IP_HASH_SIZE == p % IP_HASH_SIZE
    ensures (((hash * 32) % UINT_RANGE + hash + c) % UINT_RANGE) % IP_HASH_SIZE == (33 * p + c) % IP_HASH_SIZE
  {
    var q1 := (hash * 32) / UINT_RANGE;
    var sum := (hash * 32) % UINT_RANGE + hash + c;
    var q2 := sum / UINT_RANGE;
    var k := hash / IP_HASH_SIZE - p / IP_HASH_SIZE;
    assert hash == p + IP_HASH_SIZE * k;
    assert sum % UINT_RANGE == 33 * p + c + IP_HASH_SIZE * (33 * k - 4194304 * (q1 + q2));
    Congruent(sum % UINT_RANGE, 33 * p + c, 33 * k - 4194304 * (q1 + q2));
  }

  /** ip_hash_function: the wrapping loop computes the bucket of the unbounded polynomial. */
  method HashFunction(ip: Address) returns (bucket: nat)
    ensures bucket == Bucket(ip)
  {
    var hash := 0;
    var i := 0;
    while i < |ip|
      invariant 0 <= i <= |ip| && 0 <= hash < UINT_RANGE
      invariant hash % IP_HASH_SIZE == Polynomial(ip[..i]) % IP_HASH_SIZE
    {
      PolynomialAppend(ip[..i], ip[i]);
      assert ip[..i + 1] == ip[..i] + [ip[i]];
      var shifted := (hash * 32) % UINT_RANGE;
      HashStep(hash, Polynomial(ip[..i]), ip[i]);
      hash := (shifted + hash + ip[i]) % UINT_RANGE;
      i := i + 1;
    }
    assert ip[..i] == ip;
    return hash % IP_HASH_SIZE;
  }

  // ---- The table ----

  /** One call: the address asking and the clock it sees. */
  datatype Call = Call(ip: Address, now: int)

  datatype Table = Table(ips: seq<Address>, last: seq<int>)

  predicate WellFormed(t: Table) {
    |t.ips| == IP_HASH_SIZE && |t.last| == IP_HASH_SIZE
  }

  /** What fits in a slot. */
  function Stored(ip: Address): Address {
    if |ip| < INET_ADDRSTRLEN then ip else ip[..INET_ADDRSTRLEN - 1]
  }

  predicate TableDenies(t: Table, c: Call)
    requires WellFormed(t)
  {
    t.ips[Bucket(c.ip)] == c.ip && c.now - t.last[Bucket(c.ip)] < RATE_LIMIT_SECONDS
  }

  function TableAfter(t: Table, c: Call): (u: Table)
    requires WellFormed(t)
    ensures WellFormed(u)
  {
    var b := Bucket(c.ip);
    if TableDenies(t, c) then t
    else Table(if t.ips[b] == c.ip then t.ips else t.ips[b := Stored(c.ip)], t.last[b := c.now])
  }

  class Limiter {
    const ipHash: array<Address>

    ghost predicate Valid() {
      ipHash.Length == IP_HASH_SIZE
    }

    ghost function View(lastAccess: array<int>): Table
      reads ipHash, lastAccess
    {
      Table(ipHash[..], lastAccess[..])
    }

    constructor ()
      ensures Valid()
      ensures fresh(ipHash)
      ensures forall i :: 0 <= i < IP_HASH_SIZE ==> ipHash[i] == []
    {
      ipHash := new Address[IP_HASH_SIZE](i => []);
    }

    /** check_rate_limit, its body under the mutex. */
    method Check(clientIp: Address, lastAccess: array<int>, now: int) returns (allowed: bool)
      requires Valid() && lastAccess.Length == IP_HASH_SIZE
      modifies ipHash, lastAccess
      ensures allowed == !TableDenies(old(View(lastAccess)), Call(clientIp, now))
      ensures View(lastAccess) == TableAfter(old(View(lastAccess)), Call(clientIp, now))
    {
      hide Bucket;
      var hash := HashFunction(clientIp);
      allowed := true;
      if ipHash[hash] == clientIp {
        if now - lastAccess[hash] < RATE_LIMIT_SECONDS {
          allowed := false;
        } else {
          lastAccess[hash] := now;
        }
      } else {
        ipHash[hash] := if |clientIp| < INET_ADDRSTRLEN then clientIp else clientIp[..INET_ADDRSTRLEN - 1];
        lastAccess[hash] := now;
      }
    }
  }

  // ---- Histories ----

  function TableRun(t: Table, h: seq<Call>): (u: Table)
    requires WellFormed(t)
    ensures WellFormed(u)
  {
    if h == [] then t else TableAfter(TableRun(t, h[..|h| - 1]), h[|h| - 1])
  }

  /** The reference: an address is denied while its last grant is under three seconds old. */
  predicate MapDenies(m: map<Address, int>, c: Call) {
    c.ip in m && c.now - m[c.ip] < RATE_LIMIT_SECONDS
  }

  function MapAfter(m: map<Address, int>, c: Call): map<Address, int> {
    if MapDenies(m, c) then m else m[c.ip := c.now]
  }

  function MapRun(h: seq<Call>): map<Address, int> {
    if h == [] then map[] else MapAfter(MapRun(h[..|h| - 1]), h[|h| - 1])
  }

  /** The position after the last call that another address made on the same bucket. */
  function Forgotten(h: seq<Call>, ip: Address): (n: nat)
    ensures n <= |h|
  {
    if h == [] then 0
    else
      var c := h[|h| - 1];
      if Bucket(c.ip) == Bucket(ip) && c.ip != ip then |h| else Forgotten(h[..|h| - 1], ip)
  }

  /** ip fits in a slot and is told apart there from every other caller; so it is whenever all addresses fit. */
  predicate Distinct(h: seq<Call>, ip: Address) {
    |ip| < INET_ADDRSTRLEN && forall i :: 0 <= i < |h| && Stored(h[i].ip) == ip ==> h[i].ip == ip
  }

  predicate Empty(t: Table) {
    WellFormed(t) && forall i :: 0 <= i < IP_HASH_SIZE ==> t.ips[i] == []
  }

  /** What one call does to the slot of an address. */
  lemma SlotStep(t: Table, c: Call, ip: Address)
    requires WellFormed(t)
    ensures var u, b := TableAfter(t, c), Bucket(ip);
      && (Bucket(c.ip) != b ==> u.ips[b] == t.ips[b] && u.last[b] == t.last[b])
      && (Bucket(c.ip) == b ==> u.ips[b] == c.ip || u.ips[b] == Stored(c.ip))
      && (c.ip == ip ==> u.last[b] == if TableDenies(t, c) then t.last[b] else c.now)
  {
    hide Bucket;
  }

  /** The slot of an address, after any history, holds exactly what the reference knows since the bucket was last taken over. */
  lemma {:induction false} SlotIsMap(t: Table, h: seq<Call>, ip: Address)
    requires Empty(t) && Distinct(h, ip) && ip != []
    ensures var u := TableRun(t, h); var m := MapRun(h[Forgotten(h, ip)..]); var b := Bucket(ip);
      && (u.ips[b] == ip <==> ip in m)
      && (ip in m ==> u.last[b] == m[ip])
    decreases |h|
  {
    hide Bucket, TableAfter;
    if h == [] {
      assert h[0..] == [];
    } else {
      var n := |h| - 1;
      var prev, c := h[..n], h[n];
      var k := Forgotten(h, ip);
      SlotIsMap(t, prev, ip);
      SlotStep(TableRun(t, prev), c, ip);
      assert TableRun(t, h) == TableAfter(TableRun(t, prev), c);
      if k == |h| {
        assert h[k..] == [];
      } else {
        assert h[k..][..n - k] == prev[k..];
        assert MapRun(h[k..]) == MapAfter(MapRun(prev[k..]), c);
        hide TableRun, MapRun;
      }
    }
  }

  /**
    Exactness, whoever else called in between: a call is denied exactly when the
    per-address map, started afresh where another address last took the bucket, denies it.
   */
  lemma LimiterIsExact(t: Table, h: seq<Call>, c: Call)
    requires Empty(t) && Distinct(h, c.ip) && c.ip != []
    ensures TableDenies(TableRun(t, h), c) <==> MapDenies(MapRun(h[Forgotten(h, c.ip)..]), c)
  {
    hide Bucket;
    SlotIsMap(t, h, c.ip);
  }

  lemma {:induction false} SlotsAreShort(t: Table, h: seq<Call>, b: nat)
    requires Empty(t) && b < IP_HASH_SIZE
    ensures |TableRun(t, h).ips[b]| < INET_ADDRSTRLEN
    decreases |h|
  {
    hide Bucket;
    if h != [] {
      SlotsAreShort(t, h[..|h| - 1], b);
    }
  }

  /** An address that does not fit in a slot is never limited. */
  lemma LongAddressesAreNeverDenied(t: Table, h: seq<Call>, c: Call)
    requires Empty(t) && |c.ip| >= INET_ADDRSTRLEN
    ensures !TableDenies(TableRun(t, h), c)
  {
    hide Bucket;
    SlotsAreShort(t, h, Bucket(c.ip));
  }

  /** No other address used the bucket of ip since ip's first call. */
  predicate Undisturbed(h: seq<Call>, ip: Address) {
    forall i, j :: 0 <= i < j < |h| && h[i].ip == ip && Bucket(h[j].ip) == Bucket(ip) ==> h[j].ip == ip
  }

  lemma {:induction false} UnknownUntilFirstCall(h: seq<Call>, ip: Address)
    requires forall i :: 0 <= i < |h| ==> h[i].ip != ip
    ensures ip !in MapRun(h)
  {
    if h != [] {
      UnknownUntilFirstCall(h[..|h| - 1], ip);
    }
  }

  /** Dropping a history's calls by others before the first call of ip changes nothing for ip. */
  lemma {:induction false} MapSkips(h: seq<Call>, ip: Address, k: nat)
    requires k <= |h| && forall i :: 0 <= i < k ==> h[i].ip != ip
    ensures ip in MapRun(h[k..]) <==> ip in MapRun(h)
    ensures ip in MapRun(h) ==> MapRun(h[k..])[ip] == MapRun(h)[ip]
    decreases |h|
  {
    if k == |h| {
      assert h[k..] == [];
      UnknownUntilFirstCall(h, ip);
    } else {
      var n := |h| - 1;
      assert h[k..][..n - k] == h[..n][k..];
      MapSkips(h[..n], ip, k);
    }
  }

  lemma {:induction false} ForgottenBeforeFirstCall(h: seq<Call>, ip: Address, i: nat)
    requires Undisturbed(h, ip) && i < Forgotten(h, ip)
    ensures h[i].ip != ip
    decreases |h|
  {
    hide Bucket;
    var n := |h| - 1;
    if Bucket(h[n].ip) != Bucket(ip) || h[n].ip == ip {
      ForgottenBeforeFirstCall(h[..n], ip, i);
    }
  }

  /** The limiter refines the map for an address whose bucket no other address uses after its first call. */
  lemma LimiterRefinesMap(t: Table, h: seq<Call>, c: Call)
    requires Empty(t) && Distinct(h, c.ip) && c.ip != [] && Undisturbed(h, c.ip)
    ensures TableDenies(TableRun(t, h), c) <==> MapDenies(MapRun(h), c)
  {
    hide Bucket, Undisturbed;
    LimiterIsExact(t, h, c);
    var k := Forgotten(h, c.ip);
    forall i | 0 <= i < k ensures h[i].ip != c.ip {
      ForgottenBeforeFirstCall(h, c.ip, i);
    }
    MapSkips(h, c.ip, k);
  }

  /** Whether the table grants the k-th call of a history. */
  predicate Granted(t: Table, h: seq<Call>, k: nat)
    requires WellFormed(t) && k < |h|
  {
    !TableDenies(TableRun(t, h[..k]), h[k])
  }

  /** h[i] is the last call of its address that the table granted. */
  predicate LastGrant(t: Table, h: seq<Call>, i: nat)
    requires WellFormed(t)
  {
    && i < |h| && Granted(t, h, i)
    && forall j :: i < j < |h| && h[j].ip == h[i].ip ==> !Granted(t, h, j)
  }

  /** h[j] is a call of another address on the bucket of ip. */
  predicate Disturbs(h: seq<Call>, j: nat, ip: Address)
    requires j < |h|
  {
    h[j].ip != ip && Bucket(h[j].ip) == Bucket(ip)
  }

  /** Another address used the bucket of the i-th caller after its call. */
  predicate Disturbed(h: seq<Call>, i: nat)
    requires i < |h|
  {
    exists j :: i < j < |h| && Disturbs(h, j, h[i].ip)
  }

  lemma HistoryPrefix(t: Table, h: seq<Call>, n: nat)
    requires WellFormed(t) && n < |h|
    ensures forall j :: 0 <= j < n ==> Granted(t, h[..n], j) == Granted(t, h, j)
    ensures forall i :: 0 <= i < n ==> (Disturbed(h[..n + 1], i) <==> Disturbed(h[..n], i) || Disturbs(h, n, h[i].ip))
  {
    hide TableDenies, TableRun, Bucket;
    assert forall j :: 0 <= j < n ==> h[..n][..j] == h[..j] && h[..n][j] == h[j];
    forall i | 0 <= i < n
      ensures Disturbed(h[..n + 1], i) <==> Disturbed(h[..n], i) || Disturbs(h, n, h[i].ip)
    {
      var longer := h[..n + 1];
      assert forall j :: 0 <= j < n ==> Disturbs(h[..n], j, h[i].ip) == Disturbs(longer, j, h[i].ip);
      assert Disturbs(longer, n, h[i].ip) == Disturbs(h, n, h[i].ip);
    }
  }

  /** The slot of an address keeps its last grant until another address uses the bucket. */
  lemma {:induction false} SlotKeepsGrant(t: Table, h: seq<Call>, i: nat)
    requires Empty(t) && LastGrant(t, h, i) && Distinct(h, h[i].ip)
    ensures var u, b := TableRun(t, h), Bucket(h[i].ip);
      && (u.ips[b] == h[i].ip <==> !Disturbed(h, i))
      && (!Disturbed(h, i) ==> u.last[b] == h[i].now)
    decreases |h|
  {
    var n := |h| - 1;
    var prev, c, ip := h[..n], h[n], h[i].ip;
    SlotStep(TableRun(t, prev), c, ip);
    assert TableRun(t, h) == TableAfter(TableRun(t, prev), c);
    HistoryPrefix(t, h, n);
    assert h[..n + 1] == h;
    hide Bucket, TableRun;
    if i < n {
      SlotKeepsGrant(t, prev, i);
    }
  }

  /**
    The three-second rule, exactly: after its last grant an address is granted again
    iff three seconds have passed or another address has used the bucket since.
   */
  lemma RuleIsExact(t: Table, h: seq<Call>, c: Call, i: nat)
    requires Empty(t) && LastGrant(t, h, i) && Distinct(h, c.ip) && h[i].ip == c.ip
    ensures !TableDenies(TableRun(t, h), c) <==> (c.now - h[i].now >= 3 || Disturbed(h, i))
  {
    hide Bucket, LastGrant, Disturbed, TableRun;
    SlotKeepsGrant(t, h, i);
  }

  /** Two consecutive grants with no other address on the bucket between them are at least three seconds apart. */
  lemma GrantsAreSpaced(t: Table, h: seq<Call>, i: nat, k: nat)
    requires Empty(t) && i < k < |h| && Distinct(h, h[k].ip) && h[i].ip == h[k].ip
    requires LastGrant(t, h[..k], i) && Granted(t, h, k) && !Disturbed(h[..k], i)
    ensures h[k].now - h[i].now >= 3
  {
    hide Bucket, LastGrant, Disturbed, TableDenies;
    RuleIsExact(t, h[..k], h[k], i);
  }

  /** Two hosts of a network, whatever its prefix, that share a bucket: they end in the digits 121 and 202. */
  function Host121(prefix: Address): Address {
    prefix + [49, 50, 49]
  }

  function Host202(prefix: Address): Address {
    prefix + [50, 48, 50]
  }

  lemma PolynomialOfThree(s: seq<Char>, a: Char, b: Char, c: Char)
    ensures Polynomial(s + [a, b, c]) == 35937 * Polynomial(s) + 1089 * a + 33 * b + c
  {
    PolynomialAppend(s, a);
    PolynomialAppend(s + [a], b);
    PolynomialAppend(s + [a] + [b], c);
    assert s + [a] + [b] + [c] == s + [a, b, c];
  }

  /**
    Without that condition the refinement fails: after a call by the other host a first
    host is granted again one second after its last grant, where the map denies it.
   */
  lemma EvictionGrantsEarly(t: Table, prefix: Address)
    requires Empty(t) && |prefix| + 3 < INET_ADDRSTRLEN
    ensures var a, b := Host121(prefix), Host202(prefix);
      var h, c := [Call(a, 0), Call(b, 0)], Call(a, 1);
      MapDenies(MapRun(h), c) && !TableDenies(TableRun(t, h), c)
  {
    var a, b := Host121(prefix), Host202(prefix);
    PolynomialOfThree(prefix, 49, 50, 49);
    PolynomialOfThree(prefix, 50, 48, 50);
    Congruent(Polynomial(b), Polynomial(a), 1);
    assert a[|prefix|] != b[|prefix|];
    assert Bucket(a) == Bucket(b);
    var h, c := [Call(a, 0), Call(b, 0)], Call(a, 1);
    hide Bucket;
    LimiterIsExact(t, h, c);
    assert h[..1] == [Call(a, 0)] && h[..1][..0] == [];
    assert Forgotten(h, a) == 2;
    assert h[2..] == [];
  }
}
