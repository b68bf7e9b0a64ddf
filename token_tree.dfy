/**
  The token trees that procedural macros consume and produce. Spans are left
  out: they only carry positions for diagnostics.
 */
module TokenTree {

  /** The delimiter of a group; `NoDelim` is an invisible group. */
  datatype Delim = Paren | Brace | Bracket | NoDelim

  datatype Token =
    | Ident(name: string)
    | Lit(text: string)
    | Punct(ch: char)
    | Group(delim: Delim, stream: seq<Token>)

  /** No punctuation `c` anywhere in the tree, at any depth. */
  predicate NoPunctDeep(ts: seq<Token>, c: char)
    decreases ts
  {
    forall k :: 0 <= k < |ts| ==>
      match ts[k]
      case Punct(p) => p != c
      case Group(_, s) => NoPunctDeep(s, c)
      case _ => true
  }

  lemma NoPunctDeepAt(ts: seq<Token>, c: char, k: nat)
    requires NoPunctDeep(ts, c) && k < |ts|
    ensures ts[k] != Punct(c)
    ensures ts[k].Group? ==> NoPunctDeep(ts[k].stream, c)
  {
  }

  /** `NoPunctDeep` holds of every suffix of a stream that satisfies it. */
  lemma NoPunctDeepSuffix(ts: seq<Token>, c: char, i: nat)
    requires NoPunctDeep(ts, c) && i <= |ts|
    ensures NoPunctDeep(ts[i..], c)
  {
    assert forall k :: 0 <= k < |ts| - i ==> ts[i..][k] == ts[i + k];
  }
}
