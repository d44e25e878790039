/** Concatenation of pieces, shared by both ends of a connection. */
module Strings {

  function Concat(pieces: seq<string>): string {
    if pieces == [] then "" else Concat(pieces[..|pieces| - 1]) + pieces[|pieces| - 1]
  }

  lemma ConcatOne(pieces: seq<string>, k: nat)
    requires k < |pieces|
    ensures Concat(pieces[..k + 1]) == Concat(pieces[..k]) + pieces[k]
  {
    assert pieces[..k + 1][..k] == pieces[..k];
  }

  lemma ConcatLast(pieces: seq<string>, text: string)
    ensures Concat(pieces + [text]) == Concat(pieces) + text
  {
    assert (pieces + [text])[..|pieces|] == pieces;
  }

  lemma {:induction false} ConcatFront(text: string, pieces: seq<string>)
    ensures Concat([text] + pieces) == text + Concat(pieces)
  {
    if pieces == [] {
      assert [text] + pieces == [text] && [text][..0] == [];
    } else {
      hide Concat;
      var r, last := pieces[..|pieces| - 1], pieces[|pieces| - 1];
      ConcatFront(text, r);
      ConcatLast([text] + r, last);
      ConcatLast(r, last);
      Regroup([text], r, last);
      Associate(text, Concat(r), last);
      assert pieces == r + [last];
    }
  }

  lemma ConcatSplit(pieces: seq<string>)
    requires pieces != []
    ensures Concat(pieces) == pieces[0] + Concat(pieces[1..])
  {
    ConcatFront(pieces[0], pieces[1..]);
    assert pieces == [pieces[0]] + pieces[1..];
  }

  // ---------- sequences ----------

  lemma Associate<X>(a: seq<X>, b: seq<X>, c: seq<X>)
    ensures (a + b) + c == a + (b + c)
  {
  }

  lemma Regroup<X>(a: seq<X>, b: seq<X>, x: X)
    ensures a + b + [x] == a + (b + [x])
  {
  }

  lemma Parts<X>(s: seq<X>, n: nat, e: nat)
    requires n <= e <= |s|
    ensures s[..n] + s[n..e] == s[..e] && s[..e] + s[e..] == s
  {
  }

  lemma MiddlePart<X>(a: seq<X>, b: seq<X>, c: seq<X>)
    ensures (a + b + c)[|a|..|a| + |b|] == b
  {
  }
}
