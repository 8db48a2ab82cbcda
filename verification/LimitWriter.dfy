/** The writer that keeps the first n bytes of a stream and drops the rest. */
module LimitWriters {

  function First(n: int, s: string): string { if n <= 0 then "" else if |s| <= n then s else s[..n] }

  /** The longest prefix of at most n bytes. */
  lemma {:induction false} FirstExactly(n: int, s: string)
    ensures First(n, s) <= s && (|First(n, s)| == |s| <= n || |First(n, s)| == n < |s| || (n <= 0 && First(n, s) == ""))
  {
  }

  class LimitWriter {
    var buf: string
    var n: int
    ghost const limit: int
    ghost var written: string   // everything handed to Write so far

    ghost predicate Valid()
      reads this
    {
      buf == First(limit, written) && (limit > 0 ==> n == limit - |buf|) && (limit <= 0 ==> n == limit)
    }

    constructor (n: int)
      ensures Valid() && limit == n && written == ""
    {
      buf, this.n := "", n;
      limit, written := n, "";
    }

    /** Claims to have written everything, so that no caller sees a short write. */
    method Write(p: string) returns (count: nat)
      requires Valid()
      modifies this
      ensures Valid() && written == old(written) + p && count == |p|
    {
      if n > 0 {
        var take := if |p| < n then |p| else n;
        buf := buf + p[..take];
        n := n - take;
      }
      written := written + p;
      count := |p|;
    }
  }
}
