/** The fixed-bucket hash table with separate chaining, keyed by `year`. */
module ChainedHash {
  import opened Records

  datatype Option<T> = None | Some(value: T)

  /** The loop of `hashFunction`, as a left fold: starting from `h`, each
      character `c` of `s` turns `h` into `(h * 31 + c) mod n`. */
  function HashFold(h: nat, s: string, n: nat): (r: nat)
    requires 0 < n && h < n
    ensures r < n
    decreases |s|
  {
    if s == [] then h
    else HashFold((h * 31 + s[0] as int) % n, s[1..], n)
  }

  /** `hashFunction(key)` for a table of `n` buckets. */
  function Hash(key: string, n: nat): (r: nat)
    requires 0 < n
    ensures r < n
    ensures key == [] ==> r == 0
  {
    HashFold(0, key, n)
  }

  /** The polynomial value of a string in base 31, without any reduction. */
  function Poly(s: string): nat
  {
    if s == [] then 0 else Poly(s[..|s| - 1]) * 31 + s[|s| - 1] as int
  }

  lemma ModStep(x: nat, c: nat, n: nat)
    requires 0 < n
    ensures (x % n * 31 + c) % n == (x * 31 + c) % n
  {
    var q := x / n;
    assert x * 31 + c == (x % n * 31 + c) + (q * 31) * n;
    ModAddMultiple(x % n * 31 + c, q * 31, n);
  }

  lemma ModAddMultiple(y: int, k: int, n: int)
    requires 0 < n
    ensures (y + k * n) % n == y % n
  {
    assert y + k * n == (y / n + k) * n + y % n;
    ModUnique(y + k * n, y / n + k, y % n, n);
  }

  /** Euclidean division leaves a unique remainder. */
  lemma ModUnique(x: int, q: int, r: int, n: int)
    requires 0 < n && 0 <= r < n && x == q * n + r
    ensures x % n == r
  {
    var q', r' := x / n, x % n;
    assert x == q' * n + r';
    assert (q - q') * n == r' - r by {
      assert (q - q') * n == q * n - q' * n;
    }
    if q > q' {
      MulAtLeast(q - q', n);
    } else if q < q' {
      MulAtLeast(q' - q, n);
    }
  }

  lemma MulAtLeast(d: int, n: int)
    requires 1 <= d && 0 < n
    ensures d * n >= n
  {
    if d > 1 {
      MulAtLeast(d - 1, n);
      assert d * n == (d - 1) * n + n;
    }
  }

  lemma {:induction false} FoldIsPolynomial(p: string, s: string, n: nat)
    requires 0 < n
    ensures HashFold(Poly(p) % n, s, n) == Poly(p + s) % n
    decreases |s|
  {
    if s == [] {
      assert p + s == p;
    } else {
      var p' := p + [s[0]];
      assert p'[..|p'| - 1] == p;
      ModStep(Poly(p), s[0] as int, n);
      assert (Poly(p) % n * 31 + s[0] as int) % n == Poly(p') % n;
      FoldIsPolynomial(p', s[1..], n);
      assert p' + s[1..] == p + s;
    }
  }

  /** The incremental hash is the polynomial hash reduced modulo the bucket
      count, so keys with equal polynomial value modulo `n` share a chain. */
  lemma HashIsPolynomial(key: string, n: nat)
    requires 0 < n
    ensures Hash(key, n) == Poly(key) % n
  {
    ModUnique(0, 0, 0, n);
    assert Poly([]) % n == 0;
    FoldIsPolynomial([], key, n);
    assert [] + key == key;
  }

  /** The records of `s`, in order, whose `year` hashes to bucket `b`. */
  function Chain(s: seq<Camp>, b: nat, n: nat): (r: seq<Camp>)
    requires 0 < n
    ensures forall x :: x in r <==> x in s && Hash(x.year, n) == b
  {
    if s == [] then []
    else (if Hash(s[0].year, n) == b then [s[0]] else []) + Chain(s[1..], b, n)
  }

  lemma {:induction false} ChainAppend(s: seq<Camp>, x: Camp, b: nat, n: nat)
    requires 0 < n
    ensures Chain(s + [x], b, n) == Chain(s, b, n) + (if Hash(x.year, n) == b then [x] else [])
    decreases |s|
  {
    if s == [] {
      assert [] + [x] == [x];
    } else {
      var head := if Hash(s[0].year, n) == b then [s[0]] else [];
      var last := if Hash(x.year, n) == b then [x] else [];
      assert (s + [x])[1..] == s[1..] + [x];
      ChainAppend(s[1..], x, b, n);
      calc {
        Chain(s + [x], b, n);
        head + Chain(s[1..] + [x], b, n);
        head + (Chain(s[1..], b, n) + last);
        (head + Chain(s[1..], b, n)) + last;
      }
    }
  }

  /** The earliest record of `s` whose `year` is `key`. */
  function FindYear(s: seq<Camp>, key: string): (r: Option<Camp>)
    ensures r.None? <==> forall i | 0 <= i < |s| :: s[i].year != key
    ensures r.Some? ==> exists i | 0 <= i < |s| :: s[i] == r.value && s[i].year == key &&
                          forall k | 0 <= k < i :: s[k].year != key
  {
    if s == [] then None
    else if s[0].year == key then Some(s[0])
    else
      var r := FindYear(s[1..], key);
      assert forall i | 1 <= i < |s| :: s[i] == s[1..][i - 1];
      r
  }

  /** Scanning only the key's chain finds what scanning every inserted record
      would find. */
  lemma {:induction false} FindYearInChain(s: seq<Camp>, key: string, n: nat)
    requires 0 < n
    ensures FindYear(Chain(s, Hash(key, n), n), key) == FindYear(s, key)
    decreases |s|
  {
    if s != [] {
      FindYearInChain(s[1..], key, n);
      var b := Hash(key, n);
      if Hash(s[0].year, n) == b {
        assert Chain(s, b, n) == [s[0]] + Chain(s[1..], b, n);
        assert ([s[0]] + Chain(s[1..], b, n))[1..] == Chain(s[1..], b, n);
      } else {
        assert Chain(s, b, n) == Chain(s[1..], b, n);
      }
    }
  }

  class HashMap {
    const size: int
    const table: array<seq<Camp>>
    /** Every record inserted so far, in insertion order. */
    ghost var inserted: seq<Camp>

    /** Each chain holds, in insertion order, exactly the inserted records whose
        year hashes to it. */
    ghost predicate Valid()
      reads this, table
    {
      && 0 < table.Length == size
      && forall b | 0 <= b < table.Length :: table[b] == Chain(inserted, b, table.Length)
    }

    /** `HashMap(initialSize)`: `initialSize` empty chains. */
    constructor (initialSize: int)
      requires 0 < initialSize
      ensures Valid() && fresh(table)
      ensures size == initialSize && inserted == []
      ensures forall b | 0 <= b < table.Length :: table[b] == []
    {
      size := initialSize;
      table := new seq<Camp>[initialSize](_ => []);
      inserted := [];
    }

    /** `hashFunction(key)`: the character loop over `key`. */
    method HashFunction(key: string) returns (h: int)
      requires 0 < table.Length
      ensures 0 <= h < table.Length
      ensures h == Hash(key, table.Length)
    {
      var n := table.Length;
      h := 0;
      for i := 0 to |key|
        invariant 0 <= h < n
        invariant HashFold(h, key[i..], n) == Hash(key, n)
      {
        assert key[i..][1..] == key[i + 1..];
        h := (h * 31 + key[i] as int) % n;
      }
      assert key[|key|..] == [];
    }

    /** `insert(record)`: appends `record` to the end of its chain; every other
        chain and the bucket count are unchanged. */
    method Insert(record: Camp)
      requires Valid()
      modifies this, table
      ensures Valid()
      ensures inserted == old(inserted) + [record]
      ensures var b := Hash(record.year, table.Length);
              table[b] == old(table[b]) + [record] &&
              forall c | 0 <= c < table.Length && c != b :: table[c] == old(table[c])
    {
      var index := HashFunction(record.year);
      table[index] := table[index] + [record];
      forall b | 0 <= b < table.Length
        ensures Chain(inserted + [record], b, table.Length) == Chain(inserted, b, table.Length) + (if Hash(record.year, table.Length) == b then [record] else [])
      {
        ChainAppend(inserted, record, b, table.Length);
      }
      inserted := inserted + [record];
    }

    /** `search(key, result)`: a linear scan of the key's chain. It finds a
        record exactly when some inserted record has `year == key`, and then
        returns the earliest inserted one; on a miss `result` is returned
        unchanged. */
    method Search(key: string, result: Camp) returns (found: bool, out: Camp)
      requires Valid()
      ensures found <==> exists i | 0 <= i < |inserted| :: inserted[i].year == key
      ensures found ==> exists i | 0 <= i < |inserted| ::
                          inserted[i] == out && out.year == key &&
                          forall k | 0 <= k < i :: inserted[k].year != key
      ensures !found ==> out == result
    {
      var index := HashFunction(key);
      var chain := table[index];
      FindYearInChain(inserted, key, table.Length);
      var k := 0;
      while k < |chain|
        invariant 0 <= k <= |chain|
        invariant FindYear(chain[k..], key) == FindYear(inserted, key)
      {
        if chain[k].year == key {
          return true, chain[k];
        }
        assert chain[k..][1..] == chain[k + 1..];
        k := k + 1;
      }
      return false, result;
    }
  }
}
