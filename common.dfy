/**
 * Shared vocabulary of the model: bytes, 64-bit machine words, the Option and
 * Result wrappers used for the error paths of the program, and a few sequence
 * helpers.
 */
module Common {

  const TWO_TO_THE_64: int := 0x1_0000_0000_0000_0000

  /** One byte of a file or of a term's text. */
  type byte = x: int | 0 <= x < 256

  type Bytes = seq<byte>

  /** The program's `u64` and (on a 64-bit target) `usize`. */
  type u64 = x: int | 0 <= x < TWO_TO_THE_64

  datatype Option<+T> = None | Some(value: T)

  datatype Result<+T, +E> = Ok(value: T) | Err(error: E)

  const SPACE: byte := 32
  const NEWLINE: byte := 10
  const DOT: byte := 46
  const NUMBER_SIGN: byte := 35
  const UNDERSCORE: byte := 95

  /** The bytes of an ASCII literal. */
  function Ascii(s: string): (r: Bytes)
    requires forall i :: 0 <= i < |s| ==> s[i] as int < 128
    ensures |r| == |s|
  {
    seq(|s|, i requires 0 <= i < |s| => s[i] as int)
  }

  /** The concatenation of a sequence of sequences. */
  function Concat<T>(ss: seq<seq<T>>): seq<T>
  {
    if ss == [] then [] else ss[0] + Concat(ss[1..])
  }

  lemma {:induction false} ConcatAppend<T>(a: seq<seq<T>>, b: seq<seq<T>>)
    ensures Concat(a + b) == Concat(a) + Concat(b)
  {
    if a != [] {
      assert (a + b)[1..] == a[1..] + b;
      ConcatAppend(a[1..], b);
    } else {
      assert a + b == b;
    }
  }

  /** Splitting off the last element of the right operand of a concatenation. */
  lemma SnocSplit<T>(a: seq<T>, b: seq<T>)
    requires b != []
    ensures b == b[..|b| - 1] + [b[|b| - 1]]
    ensures a + b == (a + b[..|b| - 1]) + [b[|b| - 1]]
  {
  }

  lemma ConcatAssoc<T>(x: seq<T>, y: seq<T>, z: seq<T>)
    ensures (x + y) + z == x + (y + z)
  {
  }

  predicate StartsWith(s: Bytes, prefix: Bytes)
  {
    |prefix| <= |s| && s[..|prefix|] == prefix
  }

  predicate EndsWith(s: Bytes, suffix: Bytes)
  {
    |suffix| <= |s| && s[|s| - |suffix|..] == suffix
  }

  function Min(a: int, b: int): int
  {
    if a <= b then a else b
  }

  /** The sum of a sequence of counts. */
  function Sum(xs: seq<nat>): nat
  {
    if xs == [] then 0 else Sum(xs[..|xs| - 1]) + xs[|xs| - 1]
  }

  /** `a.abs_diff(b)` on unsigned integers. */
  function AbsDiff(a: nat, b: nat): nat
  {
    if a <= b then b - a else a - b
  }
}

/**
 * `to_ne_bytes` / `from_ne_bytes` of the 8-byte words that the state file is
 * made of, on a little-endian target.
 */
module Words {
  import opened Common

  const WORD_SIZE: nat := 8

  function Pow256(n: nat): (r: nat)
    ensures r >= 1
  {
    if n == 0 then 1 else 256 * Pow256(n - 1)
  }

  /** The low `n` bytes of `x`, least significant first (higher bytes are dropped, as a wrap-around would). */
  function EncodeLe(x: nat, n: nat): (r: Bytes)
    ensures |r| == n
  {
    if n == 0 then [] else [x % 256] + EncodeLe(x / 256, n - 1)
  }

  function DecodeLe(bs: Bytes): nat
  {
    if bs == [] then 0 else bs[0] + 256 * DecodeLe(bs[1..])
  }

  /** The bytes of one machine word. */
  function Word(x: nat): (r: Bytes)
    ensures |r| == WORD_SIZE
  {
    EncodeLe(x, WORD_SIZE)
  }

  lemma {:induction false} DecodeBound(bs: Bytes)
    ensures DecodeLe(bs) < Pow256(|bs|)
  {
    if bs != [] {
      DecodeBound(bs[1..]);
    }
  }

  /** Decoding the `n` bytes written for `x` gives `x` back whenever `x` fits in `n` bytes. */
  lemma {:induction false} DecodeEncode(x: nat, n: nat)
    requires x < Pow256(n)
    ensures DecodeLe(EncodeLe(x, n)) == x
  {
    if n > 0 {
      var e := EncodeLe(x, n);
      assert e[1..] == EncodeLe(x / 256, n - 1);
      DecodeEncode(x / 256, n - 1);
    }
  }

  lemma Pow256Word()
    ensures Pow256(WORD_SIZE) == TWO_TO_THE_64
  {
  }

  /** A whole number of three-word records is a multiple of the record size. */
  lemma {:induction false} WholeRecords(k: nat)
    ensures (k * (3 * WORD_SIZE)) % (3 * WORD_SIZE) == 0
  {
    if k > 0 {
      WholeRecords(k - 1);
      assert k * (3 * WORD_SIZE) == (k - 1) * (3 * WORD_SIZE) + 3 * WORD_SIZE;
    }
  }

  /** A word written with `to_ne_bytes` reads back with `from_ne_bytes` to the same value. */
  lemma WordRoundTrip(x: u64)
    ensures DecodeLe(Word(x)) == x
  {
    Pow256Word();
    DecodeEncode(x, WORD_SIZE);
  }
}
