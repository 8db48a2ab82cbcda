/** The hash of a build context, and how it can move on over time. */
module ContextHashes {

  /** The two files that make up the context of one image. */
  datatype Context = Context(dockerfile: string, wrapper: string)

  /** Both files go into one hash, one after the other, with nothing between them. */
  function Bytes(c: Context): string { c.dockerfile + c.wrapper }

  const HEX_LENGTH := 64

  /** Any digest with results of one length will do; that of SHA-256 in hexadecimal is 64. */
  ghost predicate IsDigest(digest: string -> string) { forall b :: |digest(b)| == HEX_LENGTH }

  function Hash(digest: string -> string, history: seq<Context>, moment: nat): string
    requires moment < |history|
  {
    digest(Bytes(history[moment]))
  }

  /** What a file holds when a run stops after writing n characters of the hash. */
  function Written(hash: string, n: nat): string { if n < |hash| then hash[..n] else hash }

  /** What is hashed tells two contexts apart except when their boundary moved. */
  lemma {:induction false} BoundaryIsLost(a: Context, b: Context)
    requires Bytes(a) == Bytes(b)
    ensures a == b <==> |a.dockerfile| == |b.dockerfile|
  {
    if |a.dockerfile| == |b.dockerfile| {
      assert a.dockerfile == Bytes(a)[..|a.dockerfile|] && a.wrapper == Bytes(a)[|a.dockerfile|..];
      assert b.dockerfile == Bytes(b)[..|b.dockerfile|] && b.wrapper == Bytes(b)[|b.dockerfile|..];
    }
  }

  /** A line moved from the wrapper to the Dockerfile leaves every digest as it was. */
  lemma {:induction false} MovedBoundaryKeepsHash(digest: string -> string, head: string, moved: string, tail: string)
    requires moved != ""
    ensures Context(head, moved + tail) != Context(head + moved, tail)
    ensures var history := [Context(head, moved + tail), Context(head + moved, tail)];
            Hash(digest, history, 0) == Hash(digest, history, 1)
  {
    assert head + (moved + tail) == (head + moved) + tail;
  }
}
