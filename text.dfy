/** String helpers behind the output formats: Rust's decimal `Display` of an
    unsigned integer and the standard library's `str::replace`, described by
    splitting a string around a pattern and joining the pieces again. */
module Text {

  /** Concatenation is associative (stated once, for the proofs that
      regroup an output log). */
  lemma AppendAssoc<T>(a: seq<T>, b: seq<T>, c: seq<T>)
    ensures (a + b) + c == a + (b + c)
  {
  }

  /** The images of the elements of `xs` under `f`, one after another. */
  function FlatMap<T, U>(f: T -> seq<U>, xs: seq<T>): seq<U>
    decreases |xs|
  {
    if xs == [] then [] else f(xs[0]) + FlatMap(f, xs[1..])
  }

  lemma {:induction false} FlatMapAppend<T, U>(f: T -> seq<U>, a: seq<T>, b: seq<T>)
    ensures FlatMap(f, a + b) == FlatMap(f, a) + FlatMap(f, b)
    decreases |a|
  {
    if a == [] {
      assert a + b == b;
    } else {
      FlatMapAppend(f, a[1..], b);
      assert (a + b)[1..] == a[1..] + b;
    }
  }

  /** When every image is a single element, the flattening has one element
      per element of `xs`, in order. */
  lemma {:induction false} FlatMapSingletons<T, U>(f: T -> seq<U>, xs: seq<T>)
    requires forall k :: 0 <= k < |xs| ==> |f(xs[k])| == 1
    ensures |FlatMap(f, xs)| == |xs|
    ensures forall k :: 0 <= k < |xs| ==> FlatMap(f, xs)[k] == f(xs[k])[0]
    decreases |xs|
  {
    if xs != [] {
      FlatMapSingletons(f, xs[1..]);
      assert |f(xs[0])| == 1;
      forall k | 1 <= k < |xs| ensures FlatMap(f, xs)[k] == f(xs[k])[0] {
        assert xs[1..][k - 1] == xs[k];
      }
    }
  }

  /** Appending the image of one more element to a log that already holds
      the images of the elements before it. */
  lemma FlatMapStep<T, U>(before: seq<U>, f: T -> seq<U>, xs: seq<T>, k: nat)
    requires k < |xs|
    ensures before + FlatMap(f, xs[..k]) + f(xs[k]) == before + FlatMap(f, xs[..k + 1])
  {
    FlatMapAppend(f, xs[..k], [xs[k]]);
    FlatMapSingle(f, xs[k]);
    assert xs[..k + 1] == xs[..k] + [xs[k]];
    AppendAssoc(before, FlatMap(f, xs[..k]), f(xs[k]));
  }

  lemma FlatMapSingle<T, U>(f: T -> seq<U>, x: T)
    ensures FlatMap(f, [x]) == f(x)
  {
    assert [x][1..] == [];
  }

  // ---------------------------------------------------------------------
  // Decimal rendering of a line number (`{}` on a `usize`)
  // ---------------------------------------------------------------------

  function DigitChar(d: nat): (c: char)
    requires d < 10
    ensures '0' <= c <= '9'
  {
    "0123456789"[d]
  }

  function DigitValue(c: char): nat
    requires '0' <= c <= '9'
  {
    (c as int) - ('0' as int)
  }

  predicate IsDigits(s: string)
  {
    forall i :: 0 <= i < |s| ==> '0' <= s[i] <= '9'
  }

  /** The shortest decimal spelling of `n`, most significant digit first. */
  function Decimal(n: nat): string
    decreases n
  {
    if n < 10 then [DigitChar(n)] else Decimal(n / 10) + [DigitChar(n % 10)]
  }

  /** Reads a string of digits back as a number (the reference reading). */
  function ParseDecimal(s: string): nat
    requires IsDigits(s)
    decreases |s|
  {
    if s == [] then 0 else ParseDecimal(s[..|s| - 1]) * 10 + DigitValue(s[|s| - 1])
  }

  lemma DigitRoundTrip(d: nat)
    requires d < 10
    ensures DigitValue(DigitChar(d)) == d
  {
  }

  /** `Decimal` spells a number with digits only, without a leading zero,
      and reading it back gives the number. */
  lemma {:induction false} DecimalRoundTrip(n: nat)
    ensures |Decimal(n)| >= 1 && IsDigits(Decimal(n))
    ensures |Decimal(n)| > 1 ==> Decimal(n)[0] != '0'
    ensures ParseDecimal(Decimal(n)) == n
    decreases n
  {
    if n < 10 {
      DigitRoundTrip(n);
    } else {
      DecimalRoundTrip(n / 10);
      DigitRoundTrip(n % 10);
      var s := Decimal(n);
      assert s[..|s| - 1] == Decimal(n / 10);
      assert s[0] == Decimal(n / 10)[0];
      if |Decimal(n / 10)| == 1 {
        assert n / 10 != 0;
        assert Decimal(n / 10) == [DigitChar(n / 10)];
      }
    }
  }

  /** Different line numbers are spelled differently. */
  lemma DecimalInjective(m: nat, n: nat)
    requires Decimal(m) == Decimal(n)
    ensures m == n
  {
    DecimalRoundTrip(m);
    DecimalRoundTrip(n);
  }

  // ---------------------------------------------------------------------
  // Occurrences, split and join
  // ---------------------------------------------------------------------

  predicate OccursAt(s: string, p: string, i: nat)
  {
    i + |p| <= |s| && s[i..i + |p|] == p
  }

  predicate Contains(s: string, p: string)
  {
    exists i: nat | i <= |s| :: OccursAt(s, p, i)
  }

  /** One piece per character, used for the empty pattern, which Rust finds
      at every character boundary. */
  function Chars(s: string): (r: seq<string>)
    ensures |r| == |s|
    ensures forall k :: 0 <= k < |r| ==> r[k] == [s[k]]
  {
    seq(|s|, k requires 0 <= k < |s| => [s[k]])
  }

  /** The pieces of `s` between the leftmost non-overlapping occurrences of
      `p`, scanning from the left (what `str::split` yields). */
  function Split(s: string, p: string): (r: seq<string>)
    ensures |r| >= 1
    ensures r[0] <= s
    decreases |s|
  {
    if p == [] then [[]] + Chars(s) + [[]]
    else if |s| < |p| then [s]
    else if s[..|p|] == p then [[]] + Split(s[|p|..], p)
    else
      var rest := Split(s[1..], p);
      [[s[0]] + rest[0]] + rest[1..]
  }

  /** The pieces with `sep` between consecutive ones. */
  function Join(pieces: seq<string>, sep: string): string
    requires |pieces| >= 1
    decreases |pieces|
  {
    if |pieces| == 1 then pieces[0] else pieces[0] + sep + Join(pieces[1..], sep)
  }

  /** Rust's `str::replace(from, to)`: every leftmost non-overlapping
      occurrence of `from` is replaced by `to`; an empty `from` matches at
      every character boundary, so `to` is inserted before every character
      and once at the end. */
  function Replace(s: string, from: string, to: string): string
    decreases |s|
  {
    if from == [] then Interleave(s, to)
    else if |s| < |from| then s
    else if s[..|from|] == from then to + Replace(s[|from|..], from, to)
    else [s[0]] + Replace(s[1..], from, to)
  }

  function Interleave(s: string, to: string): string
    decreases |s|
  {
    if s == [] then to else to + [s[0]] + Interleave(s[1..], to)
  }

  lemma JoinPrefixHead(c: char, pieces: seq<string>, sep: string)
    requires |pieces| >= 1
    ensures Join([[c] + pieces[0]] + pieces[1..], sep) == [c] + Join(pieces, sep)
  {
    var qs := [[c] + pieces[0]] + pieces[1..];
    if |pieces| > 1 {
      assert qs[1..] == pieces[1..];
    }
  }

  lemma {:induction false} JoinCharsTail(s: string, to: string)
    ensures to + Join(Chars(s) + [[]], to) == Interleave(s, to)
    decreases |s|
  {
    var ps := Chars(s) + [[]];
    if s == [] {
      assert ps == [[]];
    } else {
      JoinCharsTail(s[1..], to);
      assert ps[0] == [s[0]];
      assert ps[1..] == Chars(s[1..]) + [[]];
    }
  }

  /** The empty-pattern case of `ReplaceIsJoinOfSplit`: the replacement
      goes before every character and at the end. */
  lemma ReplaceEmptyIsJoinOfSplit(s: string, to: string)
    ensures Replace(s, [], to) == Join(Split(s, []), to)
  {
    var ps := [[]] + (Chars(s) + [[]]);
    assert Split(s, []) == ps;
    assert ps[1..] == Chars(s) + [[]];
    JoinCharsTail(s, to);
  }

  /** `Replace` is the split pieces joined with the replacement: every
      occurrence is replaced, and nothing else changes. */
  lemma {:induction false} ReplaceIsJoinOfSplit(s: string, from: string, to: string)
    ensures Replace(s, from, to) == Join(Split(s, from), to)
    decreases |s|
  {
    if from == [] {
      ReplaceEmptyIsJoinOfSplit(s, to);
    } else if |s| < |from| {
    } else if s[..|from|] == from {
      ReplaceIsJoinOfSplit(s[|from|..], from, to);
      var ps := [[]] + Split(s[|from|..], from);
      assert ps[1..] == Split(s[|from|..], from);
    } else {
      ReplaceIsJoinOfSplit(s[1..], from, to);
      JoinPrefixHead(s[0], Split(s[1..], from), to);
    }
  }

  lemma {:induction false} ReplaceWithItself(s: string, p: string)
    ensures Replace(s, p, p) == s
    decreases |s|
  {
    if p == [] {
      InterleaveEmpty(s);
    } else if |s| < |p| {
    } else if s[..|p|] == p {
      ReplaceWithItself(s[|p|..], p);
      assert s == s[..|p|] + s[|p|..];
    } else {
      ReplaceWithItself(s[1..], p);
      assert s == [s[0]] + s[1..];
    }
  }

  lemma {:induction false} InterleaveEmpty(s: string)
    ensures Interleave(s, []) == s
    decreases |s|
  {
    if s != [] {
      InterleaveEmpty(s[1..]);
      assert s == [s[0]] + s[1..];
    }
  }

  /** Joining the pieces with the pattern gives back the string. */
  lemma JoinSplit(s: string, p: string)
    ensures Join(Split(s, p), p) == s
  {
    ReplaceIsJoinOfSplit(s, p, p);
    ReplaceWithItself(s, p);
  }

  /** For a non-empty pattern no piece contains it: the split (and hence
      `Replace`) leaves no occurrence behind. */
  lemma {:induction false} SplitPiecesAvoid(s: string, p: string)
    requires p != []
    ensures forall k :: 0 <= k < |Split(s, p)| ==> !Contains(Split(s, p)[k], p)
    decreases |s|
  {
    var r := Split(s, p);
    if |s| < |p| {
      assert r == [s];
      forall i: nat ensures !OccursAt(s, p, i) { }
    } else if s[..|p|] == p {
      SplitPiecesAvoid(s[|p|..], p);
      var rest := Split(s[|p|..], p);
      assert r == [[]] + rest;
      forall k | 0 <= k < |r| ensures !Contains(r[k], p) {
        if k == 0 {
          forall i: nat ensures !OccursAt(r[0], p, i) { }
        } else {
          assert r[k] == rest[k - 1];
        }
      }
    } else {
      SplitPiecesAvoid(s[1..], p);
      var rest := Split(s[1..], p);
      assert r == [[s[0]] + rest[0]] + rest[1..];
      var h := [s[0]] + rest[0];
      assert h <= s;
      forall i: nat ensures !OccursAt(h, p, i) {
        if i == 0 {
          if |p| <= |h| {
            assert h[..|p|] == s[..|p|];
          }
        } else if i + |p| <= |h| {
          assert h[i..i + |p|] == rest[0][i - 1..i - 1 + |p|];
          assert !OccursAt(rest[0], p, i - 1);
        }
      }
      forall k | 0 <= k < |r| ensures !Contains(r[k], p) {
        if k > 0 {
          assert r[k] == rest[k];
        }
      }
    }
  }
}
