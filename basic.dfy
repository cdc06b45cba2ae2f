/**
 * The basic case. The workload writes ten keys, each a rotation of the
 * random byte string shipped with the case, mapped to the rotation ten places
 * further on, flushes and prints "Flushed"; once that line reached the
 * workload's output, the checker demands every one of those entries back.
 * `random` below is that byte string, read by the source at compile time.
 */
module Basic {
  import opened Prelude

  type Db = map<seq<Byte>, seq<Byte>>

  /** The number of entries the workload writes. */
  const ENTRIES: nat := 10

  /** The line the workload prints after its flush. */
  const FLUSHED: string := "Flushed"

  /** `random` rotated left by `shift` places; the empty string stays empty. */
  function Shifted(random: seq<Byte>, shift: nat): seq<Byte>
  {
    seq(|random|, i requires 0 <= i < |random| => random[(i + shift) % |random|])
  }

  /** `shift_bytes_by`: one push per index, each the byte `shift` places on, wrapping. */
  method ShiftBytesBy(random: seq<Byte>, shift: nat) returns (buf: seq<Byte>)
    ensures buf == Shifted(random, shift)
  {
    buf := [];
    var i := 0;
    while i < |random|
      invariant 0 <= i <= |random| && |buf| == i
      invariant forall j | 0 <= j < i :: buf[j] == random[(j + shift) % |random|]
    {
      buf := buf + [random[(i + shift) % |random|]];
      i := i + 1;
    }
  }

  lemma MulLe(a: int, b: int, n: int)
    requires a <= b && n > 0
    ensures a * n <= b * n
  {
    assert b * n == a * n + (b - a) * n;
  }

  lemma SmallMultiple(d: int, n: int)
    requires n > 0 && -n < d * n < n
    ensures d == 0
  {
    if d >= 1 {
      MulLe(1, d, n);
    } else if d <= -1 {
      MulLe(d, -1, n);
    }
  }

  /** Quotient and remainder are the only ones with `x == q * n + r` and `0 <= r < n`. */
  lemma ModUnique(x: int, n: int, q: int, r: int)
    requires n > 0 && x == q * n + r && 0 <= r < n
    ensures x / n == q && x % n == r
  {
    var q', r' := x / n, x % n;
    assert x == q' * n + r';
    assert (q - q') * n == r' - r;
    SmallMultiple(q - q', n);
  }

  lemma ModAddLeft(x: nat, a: nat, n: nat)
    requires n > 0
    ensures (x % n + a) % n == (x + a) % n
  {
    var y := x % n + a;
    ModUnique(y, n, y / n, y % n);
    ModUnique(x, n, x / n, x % n);
    ModUnique(x + a, n, x / n + y / n, y % n);
  }

  lemma ModAddTwice(x: nat, c: nat, a: nat, n: nat)
    requires n > 0
    ensures ((x + c) % n + a) % n == (x + (a + c)) % n
  {
    ModAddLeft(x + c, a, n);
    assert x + c + a == x + (a + c);
  }

  /** Shifting by 0 gives the string back. */
  lemma ShiftZero(random: seq<Byte>)
    ensures Shifted(random, 0) == random
  {
    forall i | 0 <= i < |random| ensures Shifted(random, 0)[i] == random[i] {
      ModUnique(i, |random|, 0, i);
    }
  }

  /** Shifts congruent modulo the length give the same string. */
  lemma ShiftCongruent(random: seq<Byte>, a: nat, b: nat)
    requires |random| > 0 && a % |random| == b % |random|
    ensures Shifted(random, a) == Shifted(random, b)
  {
    var n := |random|;
    forall i | 0 <= i < n ensures Shifted(random, a)[i] == Shifted(random, b)[i] {
      ModAddLeft(a, i, n);
      ModAddLeft(b, i, n);
      assert (a + i) % n == (b + i) % n;
      assert Shifted(random, a)[i] == random[(a + i) % n];
    }
  }

  /** Two shifts in a row are one shift by their sum. */
  lemma ShiftCompose(random: seq<Byte>, a: nat, c: nat)
    ensures Shifted(Shifted(random, a), c) == Shifted(random, a + c)
  {
    var n := |random|;
    forall i | 0 <= i < n ensures Shifted(Shifted(random, a), c)[i] == Shifted(random, a + c)[i] {
      var j := (i + c) % n;
      var inner := Shifted(random, a);
      assert |inner| == n;
      assert Shifted(inner, c)[i] == inner[j];
      assert inner[j] == random[(j + a) % n];
      ModAddTwice(i, c, a, n);
    }
  }

  /** A shift is a rotation: the tail from `shift mod n`, then the head before it. */
  lemma ShiftRotation(random: seq<Byte>, shift: nat)
    requires |random| > 0
    ensures Shifted(random, shift) == random[shift % |random|..] + random[..shift % |random|]
  {
    var n, k := |random|, shift % |random|;
    var rotated := random[k..] + random[..k];
    forall i | 0 <= i < n ensures Shifted(random, shift)[i] == rotated[i] {
      ModAddLeft(shift, i, n);
      assert i + shift == shift + i;
      if i < n - k {
        ModUnique(k + i, n, 0, k + i);
      } else {
        ModUnique(k + i, n, 1, k + i - n);
      }
    }
  }

  /** So a shift keeps the bytes, with their multiplicities. */
  lemma ShiftPermutation(random: seq<Byte>, shift: nat)
    ensures multiset(Shifted(random, shift)) == multiset(random)
  {
    if |random| > 0 {
      var k := shift % |random|;
      ShiftRotation(random, shift);
      assert random == random[..k] + random[k..];
    }
  }

  /** Two shifts that coincide go on coinciding after the same further shift. */
  lemma ShiftCollision(random: seq<Byte>, a: nat, b: nat, c: nat)
    requires Shifted(random, a) == Shifted(random, b)
    ensures Shifted(random, a + c) == Shifted(random, b + c)
  {
    ShiftCompose(random, a, c);
    ShiftCompose(random, b, c);
  }

  /** `pattern` occurs in `text` at offset `k`. */
  predicate OccursAt(text: string, pattern: string, k: nat)
  {
    k + |pattern| <= |text| && text[k..k + |pattern|] == pattern
  }

  /** `str::contains`: `pattern` occurs in `text` at some offset. */
  ghost predicate Contains(text: string, pattern: string)
  {
    exists k: nat :: OccursAt(text, pattern, k)
  }

  /** The condition `main` asserts: unless "Flushed" was printed, nothing; otherwise every written entry. */
  ghost predicate Passes(random: seq<Byte>, stdout: string, db: Db)
  {
    Contains(stdout, FLUSHED) ==>
      forall i | 0 <= i < ENTRIES :: Shifted(random, i) in db && db[Shifted(random, i)] == Shifted(random, i + ENTRIES)
  }

  /**
   * The checker's `main` on the recovered database and the workload's output;
   * false where an `assert_eq!` fails. `flushed` is the result of
   * `stdout.contains("Flushed")`.
   */
  method Check(random: seq<Byte>, stdout: string, flushed: bool, db: Db) returns (ok: bool)
    requires flushed == Contains(stdout, FLUSHED)
    ensures ok <==> Passes(random, stdout, db)
  {
    if flushed {
      var i := 0;
      while i < ENTRIES
        invariant 0 <= i <= ENTRIES
        invariant forall j | 0 <= j < i :: Shifted(random, j) in db && db[Shifted(random, j)] == Shifted(random, j + ENTRIES)
      {
        var key := ShiftBytesBy(random, i);
        var value := ShiftBytesBy(random, i + ENTRIES);
        if key !in db || db[key] != value {
          return false;
        }
        i := i + 1;
      }
    }
    return true;
  }

  /** The database after the workload's first `n` inserts into `db`. */
  function Inserted(random: seq<Byte>, db: Db, n: nat): Db
  {
    if n == 0 then db else Inserted(random, db, n - 1)[Shifted(random, n - 1) := Shifted(random, n - 1 + ENTRIES)]
  }

  /** The workload's loop of inserts. */
  method Workload(random: seq<Byte>, db: Db) returns (db': Db)
    ensures db' == Inserted(random, db, ENTRIES)
  {
    db' := db;
    var i := 0;
    while i < ENTRIES
      invariant 0 <= i <= ENTRIES && db' == Inserted(random, db, i)
    {
      var key := ShiftBytesBy(random, i);
      var value := ShiftBytesBy(random, i + ENTRIES);
      db' := db'[key := value];
      i := i + 1;
    }
  }

  /**
   * After `n` inserts every key written maps to its value, even when the
   * random string repeats itself and a later key overwrote an earlier one.
   */
  lemma {:induction false} InsertedHolds(random: seq<Byte>, db: Db, n: nat)
    ensures forall i | 0 <= i < n ::
      Shifted(random, i) in Inserted(random, db, n) && Inserted(random, db, n)[Shifted(random, i)] == Shifted(random, i + ENTRIES)
  {
    if n > 0 {
      InsertedHolds(random, db, n - 1);
      forall i | 0 <= i < n - 1 && Shifted(random, i) == Shifted(random, n - 1)
        ensures Shifted(random, i + ENTRIES) == Shifted(random, n - 1 + ENTRIES)
      {
        ShiftCollision(random, i, n - 1, ENTRIES);
      }
    }
  }

  /** A flushed workload's database, whatever it started from, passes the check. */
  lemma WorkloadPasses(random: seq<Byte>, stdout: string, db: Db)
    ensures Passes(random, stdout, Inserted(random, db, ENTRIES))
  {
    InsertedHolds(random, db, ENTRIES);
  }

  /** Without "Flushed" in the output, any recovered database passes. */
  lemma UnflushedPasses(random: seq<Byte>, stdout: string, db: Db)
    requires !Contains(stdout, FLUSHED)
    ensures Passes(random, stdout, db)
  {
  }
}
