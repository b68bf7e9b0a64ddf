/**
  The substitution pass of `seq!` (`fill_token_stream`): one copy of a body
  for one index. A bare loop variable becomes the decimal literal of the
  index; an identifier followed by `~`-separated identifiers is pasted into a
  single identifier; groups are rebuilt with their delimiter.
 */
module SeqFill {
  import opened Decimal
  import opened TokenTree

  /** What one pasted segment contributes: the index when it is the loop variable. */
  function Segment(name: string, v: string, idx: nat): string {
    if name == v then Dec(idx) else name
  }

  /**
    The paste loop that follows an identifier at position `j - 1`: while the
    next token is a `~`, the `~` is consumed and, when an identifier follows,
    that identifier too. Gives the text appended to the head identifier and
    the position after the chain.
   */
  function Paste(ts: seq<Token>, j: nat, v: string, idx: nat): (r: (string, nat))
    requires j <= |ts|
    ensures j <= r.1 <= |ts|
    decreases |ts| - j
  {
    if j < |ts| && ts[j] == Punct('~') then
      if j + 1 < |ts| && ts[j + 1].Ident? then
        var rest := Paste(ts, j + 2, v, idx);
        (Segment(ts[j + 1].name, v, idx) + rest.0, rest.1)
      else
        Paste(ts, j + 1, v, idx)
    else
      ("", j)
  }

  /** The substituted copy of `ts[i..]`; `i` plays the part of the peekable iterator. */
  function FillFrom(ts: seq<Token>, i: nat, v: string, idx: nat): seq<Token>
    requires i <= |ts|
    decreases ts, |ts| - i, 1
  {
    if i == |ts| then [] else [FillHead(ts, i, v, idx)] + FillFrom(ts, FillNext(ts, i, v, idx), v, idx)
  }

  /**
    The token emitted for `ts[i]`: a group rebuilt around its filled
    contents, the loop variable as the index literal, another identifier
    with its paste chain appended, anything else as it is.
   */
  function FillHead(ts: seq<Token>, i: nat, v: string, idx: nat): Token
    requires i < |ts|
    decreases ts, |ts| - i, 0
  {
    match ts[i]
    case Group(d, s) => Group(d, FillFrom(s, 0, v, idx))
    case Ident(n) => if n == v then Lit(Dec(idx)) else Ident(n + Paste(ts, i + 1, v, idx).0)
    case _ => ts[i]
  }

  /** Where the walk resumes after `ts[i]`: past the paste chain of an identifier, else the next token. */
  function FillNext(ts: seq<Token>, i: nat, v: string, idx: nat): (next: nat)
    requires i < |ts|
    ensures i < next <= |ts|
  {
    if ts[i].Ident? then Paste(ts, i + 1, v, idx).1 else i + 1
  }

  /** `fill_token_stream(ts, v, idx)`. */
  function Fill(ts: seq<Token>, v: string, idx: nat): seq<Token> {
    FillFrom(ts, 0, v, idx)
  }

  /** The copies of `body` for the indices `lo, lo + 1, ..., hi - 1`, in that order. */
  function Repeat(body: seq<Token>, v: string, lo: nat, hi: nat): seq<Token>
    decreases hi
  {
    if hi <= lo then [] else Repeat(body, v, lo, hi - 1) + Fill(body, v, hi - 1)
  }

  /**
    The inner `while let` of `fill_token_stream`: starting from the identifier
    `head` with the iterator at `j`, consumes the paste chain and gives the
    pasted name and the iterator position after it.
   */
  method PasteLoop(ts: seq<Token>, j: nat, head: string, v: string, idx: nat) returns (name: string, next: nat)
    requires j <= |ts|
    ensures name == head + Paste(ts, j, v, idx).0 && next == Paste(ts, j, v, idx).1
  {
    name, next := head, j;
    while next < |ts| && ts[next].Punct?
      invariant j <= next <= |ts|
      invariant name + Paste(ts, next, v, idx).0 == head + Paste(ts, j, v, idx).0
      invariant Paste(ts, next, v, idx).1 == Paste(ts, j, v, idx).1
      decreases |ts| - next
    {
      if ts[next].ch == '~' {
        next := next + 1;
        if next < |ts| && ts[next].Ident? {
          name := name + Segment(ts[next].name, v, idx);
          next := next + 1;
        }
      } else {
        break;
      }
    }
    assert Paste(ts, next, v, idx) == ("", next);
    assert name + "" == name;
  }

  /** `fill_token_stream`: the loop over the peekable iterator. */
  method FillStream(ts: seq<Token>, v: string, idx: nat) returns (out: seq<Token>)
    ensures out == Fill(ts, v, idx)
    decreases ts, 1
  {
    out := [];
    var i := 0;
    while i < |ts|
      invariant 0 <= i <= |ts|
      invariant out + FillFrom(ts, i, v, idx) == Fill(ts, v, idx)
      decreases |ts| - i
    {
      ghost var at := i;
      var tree;
      tree, i := FillToken(ts, i, v, idx);
      assert FillFrom(ts, at, v, idx) == [tree] + FillFrom(ts, i, v, idx);
      assert out + [tree] + FillFrom(ts, i, v, idx) == out + ([tree] + FillFrom(ts, i, v, idx));
      out := out + [tree];
    }
  }

  /** One turn of the loop in `fill_token_stream`: the token for `ts[at]` and where the iterator stops. */
  method FillToken(ts: seq<Token>, at: nat, v: string, idx: nat) returns (tree: Token, next: nat)
    requires at < |ts|
    ensures tree == FillHead(ts, at, v, idx) && next == FillNext(ts, at, v, idx)
    decreases ts, 0
  {
    var token := ts[at];
    next := at + 1;
    match token {
      case Group(d, s) =>
        var inner := FillStream(s, v, idx);
        tree := Group(d, inner);
      case Ident(n) =>
        var pasted;
        pasted, next := PasteLoop(ts, next, n, v, idx);
        tree := if n == v then Lit(Dec(idx)) else Ident(pasted);
      case _ =>
        tree := token;
    }
  }

  /** The loop `for idx in lo..hi { out.extend(fill_token_stream(body, v, idx)) }`. */
  method RepeatStream(body: seq<Token>, v: string, lo: nat, hi: nat) returns (out: seq<Token>)
    ensures out == Repeat(body, v, lo, hi)
  {
    out := [];
    if lo < hi {
      for idx := lo to hi
        invariant out == Repeat(body, v, lo, idx)
      {
        var copy := FillStream(body, v, idx);
        out := out + copy;
      }
    }
  }
}

module SeqFillProperties {
  import opened Decimal
  import opened TokenTree
  import opened SeqFill

  // ---------------------------------------------------------------------
  // Reference definitions
  // ---------------------------------------------------------------------

  /** Neither the loop variable nor a `~` anywhere in the tree. */
  predicate Untouched(ts: seq<Token>, v: string)
    decreases ts
  {
    forall k :: 0 <= k < |ts| ==>
      match ts[k]
      case Ident(n) => n != v
      case Punct(c) => c != '~'
      case Lit(_) => true
      case Group(_, s) => Untouched(s, v)
  }

  /** Plain substitution: every occurrence of `v`, at any depth, becomes the literal `idx`. */
  function Subst(ts: seq<Token>, v: string, idx: nat): seq<Token>
    decreases ts
  {
    if ts == [] then []
    else
      var head :=
        match ts[0]
        case Ident(n) => if n == v then Lit(Dec(idx)) else ts[0]
        case Group(d, s) => Group(d, Subst(s, v, idx))
        case _ => ts[0];
      [head] + Subst(ts[1..], v, idx)
  }

  /** The tokens `~ n1 ~ n2 ... ~ nk` of a paste chain. */
  function Chain(names: seq<string>): (ts: seq<Token>)
    ensures |ts| == 2 * |names|
  {
    if names == [] then [] else [Punct('~'), Ident(names[0])] + Chain(names[1..])
  }

  /** The text a chain appends to its head identifier. */
  function Pasted(names: seq<string>, v: string, idx: nat): string {
    if names == [] then "" else Segment(names[0], v, idx) + Pasted(names[1..], v, idx)
  }

  // ---------------------------------------------------------------------
  // Position independence
  // ---------------------------------------------------------------------

  lemma {:induction false} PasteShift(ts: seq<Token>, i: nat, us: seq<Token>, j: nat, v: string, idx: nat)
    requires i <= |ts| && j <= |us| && ts[i..] == us[j..]
    ensures Paste(ts, i, v, idx).0 == Paste(us, j, v, idx).0
    ensures Paste(ts, i, v, idx).1 - i == Paste(us, j, v, idx).1 - j
    decreases |ts| - i
  {
    if i < |ts| {
      assert ts[i] == ts[i..][0] == us[j];
      if i + 1 < |ts| {
        assert ts[i + 1] == ts[i..][1] == us[j + 1];
      }
      if ts[i] == Punct('~') {
        if i + 1 < |ts| && ts[i + 1].Ident? {
          PasteShift(ts, i + 2, us, j + 2, v, idx);
        } else {
          PasteShift(ts, i + 1, us, j + 1, v, idx);
        }
      }
    }
  }

  /** Equal suffixes stay equal when both are advanced by the same amount. */
  lemma SuffixShift(ts: seq<Token>, i: nat, us: seq<Token>, j: nat, k: nat)
    requires i <= k <= |ts| && j <= |us| && ts[i..] == us[j..]
    ensures k - i + j <= |us| && ts[k..] == us[k - i + j..]
  {
    assert ts[k..] == ts[i..][k - i..];
    assert us[k - i + j..] == us[j..][k - i..];
  }

  /** The copy of `ts[i..]` depends on nothing before `i`. */
  lemma {:induction false} FillFromShift(ts: seq<Token>, i: nat, us: seq<Token>, j: nat, v: string, idx: nat)
    requires i <= |ts| && j <= |us| && ts[i..] == us[j..]
    ensures FillFrom(ts, i, v, idx) == FillFrom(us, j, v, idx)
    decreases |ts| - i
  {
    if i < |ts| {
      assert ts[i] == ts[i..][0] == us[j];
      if ts[i].Ident? {
        SuffixShift(ts, i, us, j, i + 1);
        PasteShift(ts, i + 1, us, j + 1, v, idx);
      }
      assert FillHead(ts, i, v, idx) == FillHead(us, j, v, idx);
      var next := FillNext(ts, i, v, idx);
      assert FillNext(us, j, v, idx) == next - i + j;
      SuffixShift(ts, i, us, j, next);
      FillFromShift(ts, next, us, next - i + j, v, idx);
    }
  }

  lemma FillFromSuffix(ts: seq<Token>, i: nat, v: string, idx: nat)
    requires i <= |ts|
    ensures FillFrom(ts, i, v, idx) == Fill(ts[i..], v, idx)
  {
    FillFromShift(ts, i, ts[i..], 0, v, idx);
  }

  // ---------------------------------------------------------------------
  // Properties of one copy
  // ---------------------------------------------------------------------

  /** A stream with no loop variable and no `~` is copied unchanged. */
  lemma {:induction false} FillUntouched(ts: seq<Token>, v: string, idx: nat)
    requires Untouched(ts, v)
    ensures Fill(ts, v, idx) == ts
  {
    FillFromUntouched(ts, 0, v, idx);
  }

  lemma {:induction false} FillFromUntouched(ts: seq<Token>, i: nat, v: string, idx: nat)
    requires Untouched(ts, v) && i <= |ts|
    ensures FillFrom(ts, i, v, idx) == ts[i..]
    decreases ts, |ts| - i
  {
    if i < |ts| {
      assert ts[i..] == [ts[i]] + ts[i + 1..];
      match ts[i]
      case Group(d, s) =>
        assert Untouched(s, v);
        FillFromUntouched(s, 0, v, idx);
        assert s[0..] == s;
        assert FillHead(ts, i, v, idx) == ts[i];
      case Ident(n) =>
        assert Paste(ts, i + 1, v, idx) == ("", i + 1);
        assert n + "" == n;
        assert FillHead(ts, i, v, idx) == ts[i];
      case _ =>
        assert FillHead(ts, i, v, idx) == ts[i];
    }
    if i < |ts| {
      assert FillNext(ts, i, v, idx) == i + 1;
      FillFromUntouched(ts, i + 1, v, idx);
    }
  }

  /** Without any `~` the pass is plain substitution of the loop variable, at every depth. */
  lemma {:induction false} FillWithoutPasteIsSubst(ts: seq<Token>, v: string, idx: nat)
    requires NoPunctDeep(ts, '~')
    ensures Fill(ts, v, idx) == Subst(ts, v, idx)
    decreases ts
  {
    if ts != [] {
      NoPunctDeepSuffix(ts, '~', 1);
      FillWithoutPasteIsSubst(ts[1..], v, idx);
      match ts[0]
      case Group(d, s) =>
        FillWithoutPasteIsSubst(s, v, idx);
        assert FillHead(ts, 0, v, idx) == Group(d, Fill(s, v, idx));
        assert Fill(ts, v, idx) == [FillHead(ts, 0, v, idx)] + FillFrom(ts, 1, v, idx);
        assert Subst(ts, v, idx) == [Group(d, Subst(s, v, idx))] + Subst(ts[1..], v, idx);
        FillFromSuffix(ts, 1, v, idx);
      case Ident(n) =>
        if |ts| > 1 {
          assert ts[1] != Punct('~');
        }
        assert Paste(ts, 1, v, idx) == ("", 1);
        assert n + "" == n;
        assert FillNext(ts, 0, v, idx) == 1;
        assert FillHead(ts, 0, v, idx) == if n == v then Lit(Dec(idx)) else Ident(n);
        assert Fill(ts, v, idx) == [FillHead(ts, 0, v, idx)] + FillFrom(ts, 1, v, idx);
        FillFromSuffix(ts, 1, v, idx);
      case _ =>
        FillFromSuffix(ts, 1, v, idx);
    }
  }

  lemma {:induction false} PasteEndIndependent(ts: seq<Token>, j: nat, v: string, a: nat, b: nat)
    requires j <= |ts|
    ensures Paste(ts, j, v, a).1 == Paste(ts, j, v, b).1
    decreases |ts| - j
  {
    if j < |ts| && ts[j] == Punct('~') {
      if j + 1 < |ts| && ts[j + 1].Ident? {
        PasteEndIndependent(ts, j + 2, v, a, b);
      } else {
        PasteEndIndependent(ts, j + 1, v, a, b);
      }
    }
  }

  /** Every copy of a body has the same number of tokens, whatever the index. */
  lemma {:induction false} FillLengthIndependent(ts: seq<Token>, i: nat, v: string, a: nat, b: nat)
    requires i <= |ts|
    ensures |FillFrom(ts, i, v, a)| == |FillFrom(ts, i, v, b)|
    decreases |ts| - i
  {
    if i < |ts| {
      match ts[i]
      case Ident(n) =>
        PasteEndIndependent(ts, i + 1, v, a, b);
        FillLengthIndependent(ts, Paste(ts, i + 1, v, a).1, v, a, b);
      case _ =>
        FillLengthIndependent(ts, i + 1, v, a, b);
    }
  }

  lemma {:induction false} PasteChain(ts: seq<Token>, j: nat, names: seq<string>, v: string, idx: nat)
    requires j + 2 * |names| <= |ts| && ts[j..j + 2 * |names|] == Chain(names)
    requires j + 2 * |names| == |ts| || ts[j + 2 * |names|] != Punct('~')
    ensures Paste(ts, j, v, idx) == (Pasted(names, v, idx), j + 2 * |names|)
    decreases names
  {
    if names != [] {
      assert ts[j] == Chain(names)[0] == Punct('~');
      assert ts[j + 1] == Chain(names)[1] == Ident(names[0]);
      assert ts[j + 2..j + 2 + 2 * |names[1..]|] == Chain(names)[2..];
      PasteChain(ts, j + 2, names[1..], v, idx);
    } else {
      assert Pasted(names, v, idx) == "";
    }
  }

  /**
    A paste chain `n ~ n1 ~ ... ~ nk` becomes one identifier whose name is `n`
    followed by each segment's text (the index for the loop variable); when
    `n` itself is the loop variable the whole chain becomes the index literal.
   */
  lemma FillPasteChain(n: string, names: seq<string>, rest: seq<Token>, v: string, idx: nat)
    requires rest == [] || rest[0] != Punct('~')
    ensures Fill([Ident(n)] + Chain(names) + rest, v, idx)
         == [if n == v then Lit(Dec(idx)) else Ident(n + Pasted(names, v, idx))] + Fill(rest, v, idx)
  {
    var ts := [Ident(n)] + Chain(names) + rest;
    var end := 1 + 2 * |names|;
    assert ts[1..end] == Chain(names);
    assert ts[end..] == rest;
    PasteChain(ts, 1, names, v, idx);
    assert ts[0] == Ident(n);
    assert FillNext(ts, 0, v, idx) == end;
    assert FillHead(ts, 0, v, idx) == if n == v then Lit(Dec(idx)) else Ident(n + Pasted(names, v, idx));
    assert Fill(ts, v, idx) == [FillHead(ts, 0, v, idx)] + FillFrom(ts, end, v, idx);
    FillFromSuffix(ts, end, v, idx);
  }

  /** A `~` after an identifier that is not followed by an identifier is consumed and dropped. */
  lemma FillDanglingTilde(n: string, rest: seq<Token>, v: string, idx: nat)
    requires rest == [] || (!rest[0].Ident? && rest[0] != Punct('~'))
    ensures Fill([Ident(n), Punct('~')] + rest, v, idx)
         == [if n == v then Lit(Dec(idx)) else Ident(n)] + Fill(rest, v, idx)
  {
    var ts := [Ident(n), Punct('~')] + rest;
    assert Paste(ts, 2, v, idx) == ("", 2);
    assert Paste(ts, 1, v, idx) == ("", 2);
    assert n + "" == n;
    assert ts[2..] == rest;
    assert FillNext(ts, 0, v, idx) == 2;
    assert FillHead(ts, 0, v, idx) == if n == v then Lit(Dec(idx)) else Ident(n);
    assert Fill(ts, v, idx) == [FillHead(ts, 0, v, idx)] + FillFrom(ts, 2, v, idx);
    FillFromSuffix(ts, 2, v, idx);
  }

  // ---------------------------------------------------------------------
  // Properties of the repetition
  // ---------------------------------------------------------------------

  /** The first copy is that of `lo`: copies come in ascending index order. */
  lemma {:induction false} RepeatFirst(body: seq<Token>, v: string, lo: nat, hi: nat)
    requires lo < hi
    ensures Repeat(body, v, lo, hi) == Fill(body, v, lo) + Repeat(body, v, lo + 1, hi)
    decreases hi
  {
    if hi - 1 > lo {
      RepeatFirst(body, v, lo, hi - 1);
    }
  }

  /** `hi - lo` copies of the same length each, and none when the range is empty. */
  lemma {:induction false} RepeatLength(body: seq<Token>, v: string, lo: nat, hi: nat)
    ensures hi <= lo ==> Repeat(body, v, lo, hi) == []
    ensures lo < hi ==> |Repeat(body, v, lo, hi)| == (hi - lo) * |Fill(body, v, lo)|
    decreases hi
  {
    if lo < hi {
      RepeatLength(body, v, lo, hi - 1);
      FillLengthIndependent(body, 0, v, lo, hi - 1);
      var n := |Fill(body, v, lo)|;
      assert |Repeat(body, v, lo, hi)| == |Repeat(body, v, lo, hi - 1)| + n;
      assert (hi - lo) * n == (hi - 1 - lo) * n + n;
    }
  }
}
