/** The string functions the image tooling relies on.  A character stands for one byte. */
module Strings {

  /** strings.Cut for a one-byte separator. */
  function Cut(s: string, sep: char): (r: (string, string, bool))
    ensures sep !in r.0
    ensures r.2 ==> s == r.0 + [sep] + r.1
    ensures !r.2 ==> s == r.0 && r.1 == ""
  {
    if s == "" then ("", "", false)
    else if s[0] == sep then ("", s[1..], true)
    else var r := Cut(s[1..], sep); ([s[0]] + r.0, r.1, r.2)
  }

  /** strings.Split for a one-byte separator. */
  function Split(s: string, sep: char): (r: seq<string>)
    ensures r != []
    ensures forall p :: p in r ==> sep !in p && |p| <= |s|
    decreases |s|
  {
    var c := Cut(s, sep);
    if c.2 then [c.0] + Split(c.1, sep) else [s]
  }

  /** strings.Join. */
  function Join(parts: seq<string>, sep: string): string {
    if parts == [] then "" else if |parts| == 1 then parts[0]
    else parts[0] + sep + Join(parts[1..], sep)
  }

  lemma {:induction false} JoinSplit(s: string, sep: char)
    ensures Join(Split(s, sep), [sep]) == s
    decreases |s|
  {
    var c := Cut(s, sep);
    if c.2 {
      JoinSplit(c.1, sep);
      assert Split(s, sep)[1..] == Split(c.1, sep);
    }
  }

  /** The first separator decides. */
  lemma {:induction false} CutAt(a: string, b: string, sep: char)
    requires sep !in a
    ensures Cut(a + [sep] + b, sep) == (a, b, true)
  {
    var s := a + [sep] + b;
    if a != "" {
      assert s[1..] == a[1..] + [sep] + b;
      CutAt(a[1..], b, sep);
      assert s[0] == a[0] && [a[0]] + a[1..] == a;
    }
  }

  lemma {:induction false} CutNone(a: string, sep: char)
    requires sep !in a
    ensures Cut(a, sep) == (a, "", false)
  {
    if a != "" { CutNone(a[1..], sep); }
  }

  lemma {:induction false} SplitNone(a: string, sep: char)
    requires sep !in a
    ensures Split(a, sep) == [a]
  {
    CutNone(a, sep);
  }

  lemma {:induction false} SplitAt(a: string, b: string, sep: char)
    requires sep !in a
    ensures Split(a + [sep] + b, sep) == [a] + Split(b, sep)
  {
    CutAt(a, b, sep);
  }

  lemma {:induction false} CutFound(s: string, sep: char)
    requires sep in s
    ensures Cut(s, sep).2
  {
  }

  function Last(s: string, sep: char): string { var parts := Split(s, sep); parts[|parts| - 1] }

  lemma {:induction false} LastAfter(a: string, b: string, sep: char)
    requires sep !in a
    ensures Last(a + [sep] + b, sep) == Last(b, sep)
  {
    hide Split;
    SplitAt(a, b, sep);
  }

  /** What follows the last separator is in the last piece. */
  lemma {:induction false} LastPiece(s: string, suffix: string, sep: char)
    requires sep !in suffix
    ensures |Last(s + suffix, sep)| >= |suffix|
    decreases |s|
  {
    if sep in s {
      CutFound(s, sep);
      var c := Cut(s, sep);
      hide Split, Cut, Last;
      LastPiece(c.1, suffix, sep);
      LastAfter(c.0, c.1 + suffix, sep);
      assert s + suffix == c.0 + [sep] + (c.1 + suffix);
    } else {
      SplitNone(s + suffix, sep);
    }
  }

  // ------------------------------------------------------------ byte order

  predicate Less(a: string, b: string) {
    b != "" && (a == "" || a[0] < b[0] || (a[0] == b[0] && Less(a[1..], b[1..])))
  }

  lemma {:induction false} SameFirst(a: string, b: string, k: nat)
    requires 0 < k <= |a| && k <= |b| && a[..k] == b[..k]
    ensures a[0] == b[0]
  {
    assert a[..k][0] == b[..k][0];
  }

  /** The two agree up to k and a has the smaller byte there. */
  predicate SmallerAt(a: string, b: string, k: nat) { k < |a| && k < |b| && a[..k] == b[..k] && a[k] < b[k] }

  lemma {:induction false} ConsSmaller(a: string, b: string, k: nat)
    requires a != "" && b != "" && a[0] == b[0]
    ensures SmallerAt(a[1..], b[1..], k) <==> SmallerAt(a, b, k + 1)
    ensures !SmallerAt(a, b, 0)
  {
    if k < |a| - 1 && k < |b| - 1 {
      assert a[..k + 1] == [a[0]] + a[1..][..k] && b[..k + 1] == [b[0]] + b[1..][..k];
      assert a[..k + 1] == b[..k + 1] ==> a[..k + 1][1..] == b[..k + 1][1..];
    }
  }

  /** The order of bytes: a is shorter and starts b, or has the smaller byte where they first
      differ. */
  lemma {:induction false} LessExactly(a: string, b: string)
    ensures Less(a, b) <==> a < b || exists k: nat :: SmallerAt(a, b, k)
  {
    if a != "" && b != "" && a[0] == b[0] {
      var x, y := a[1..], b[1..];
      LessExactly(x, y);
      assert a == [a[0]] + x && b == [b[0]] + y;
      assert a < b <==> x < y;
      if k: nat :| SmallerAt(x, y, k) { ConsSmaller(a, b, k); }
      if k: nat :| SmallerAt(a, b, k) { ConsSmaller(a, b, if k > 0 then k - 1 else 0); }
    } else if a != "" && b != "" && a[0] < b[0] {
      assert SmallerAt(a, b, 0);
    } else if a != "" && b != "" {
      forall k: nat | SmallerAt(a, b, k) ensures k == 0 { if k > 0 { SameFirst(a, b, k); } }
    }
  }

  lemma {:induction false} LessTotal(a: string, b: string)
    ensures Less(a, b) || a == b || Less(b, a)
  {
    if a != "" && b != "" && a[0] == b[0] {
      LessTotal(a[1..], b[1..]);
      assert a[1..] == b[1..] ==> a == [a[0]] + b[1..] == b;
    }
  }

  lemma {:induction false} LessAsymmetric(a: string, b: string)
    requires Less(a, b)
    ensures !Less(b, a) && a != b
  {
    if a != "" && a[0] == b[0] { LessAsymmetric(a[1..], b[1..]); }
  }

  lemma {:induction false} LessTransitive(a: string, b: string, c: string)
    requires Less(a, b) && Less(b, c)
    ensures Less(a, c)
  {
    if a != "" && a[0] == b[0] == c[0] { LessTransitive(a[1..], b[1..], c[1..]); }
  }

  predicate IsLeast(m: string, s: set<string>) {
    m in s && forall x :: x in s && x != m ==> Less(m, x)
  }

  lemma {:induction false} LeastExists(s: set<string>) returns (m: string)
    requires s != {}
    ensures IsLeast(m, s)
    decreases |s|
  {
    var x :| x in s;
    if s == {x} {
      m := x;
    } else {
      var y := LeastExists(s - {x});
      LessTotal(x, y);
      if Less(x, y) {
        m := x;
        forall z | z in s && z != x ensures Less(x, z) {
          if z != y { LessTransitive(x, y, z); }
        }
      } else {
        m := y;
      }
    }
  }

  lemma {:induction false} LeastUnique(s: set<string>, m: string, n: string)
    requires IsLeast(m, s) && IsLeast(n, s)
    ensures m == n
  {
    if m != n { LessAsymmetric(m, n); }
  }

  lemma {:induction false} LeastWellDefined(s: set<string>)
    requires s != {}
    ensures exists m :: IsLeast(m, s)
    ensures forall m, n :: IsLeast(m, s) && IsLeast(n, s) ==> m == n
  {
    var m := LeastExists(s);
    forall m, n | IsLeast(m, s) && IsLeast(n, s) ensures m == n { LeastUnique(s, m, n); }
  }

  /** Strictly increasing in byte order. */
  predicate Increasing(r: seq<string>) {
    forall i, j :: 0 <= i < j < |r| ==> Less(r[i], r[j])
  }

  /** slices.Sorted of the elements of a set. */
  function Sorted(s: set<string>): (r: seq<string>)
    ensures Increasing(r)
    ensures forall x :: x in r <==> x in s
  {
    if s == {} then [] else
    LeastWellDefined(s);
    var m :| m in s && IsLeast(m, s);
    [m] + Sorted(s - {m})
  }

  /** An increasing list is determined by its elements, so Sorted is the only one. */
  lemma {:induction false} IncreasingUnique(a: seq<string>, b: seq<string>)
    requires Increasing(a) && Increasing(b) && (forall x :: x in a <==> x in b)
    ensures a == b
  {
    assert a == [] <==> b == [] by {
      assert |b| > 0 ==> b[0] in b;
      assert |a| > 0 ==> a[0] in a;
    }
    if a != [] {
      assert a[0] in b;
      assert b[0] in a;
      if a[0] != b[0] {
        LessAsymmetric(a[0], b[0]);
      }
      assert a[0] == b[0];
      forall x ensures x in a[1..] <==> x in b[1..] {
        NotInTail(a, x);
        NotInTail(b, x);
      }
      IncreasingUnique(a[1..], b[1..]);
      assert a == [a[0]] + a[1..] && b == [b[0]] + b[1..];
    }
  }

  lemma {:induction false} NotInTail(a: seq<string>, x: string)
    requires a != [] && Increasing(a)
    ensures x in a[1..] <==> x in a && x != a[0]
  {
    if x in a[1..] {
      var i :| 0 <= i < |a| - 1 && a[1..][i] == x;
      assert Less(a[0], a[i + 1]);
      LessAsymmetric(a[0], x);
    }
  }
}
