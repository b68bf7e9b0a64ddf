/**
  The repeat-marker scanner of `seq!` (`parse_for_repeat_token`): finds
  `# ( ... ) *` anywhere in the body and splices in one substituted copy of
  the parenthesised tokens per index, copying everything else once.
 */
module SeqScan {
  import opened TokenTree
  import opened SeqFill

  function Prepend(out: seq<Token>, r: (seq<Token>, bool)): (seq<Token>, bool) {
    (out + r.0, r.1)
  }

  /**
    The scanner's output for `ts[i..]`, and whether it met a marker.
    After `#` the next token is always consumed and copied without being
    scanned; when that token is a parenthesis group followed by a
    punctuation other than `*`, the punctuation is only peeked at, so it is
    copied here and scanned again as the next token.
   */
  function ScanFrom(ts: seq<Token>, i: nat, v: string, lo: nat, hi: nat): (seq<Token>, bool)
    requires i <= |ts|
    decreases ts, |ts| - i
  {
    if i == |ts| then ([], false)
    else
      match ts[i]
      case Punct(c) =>
        if c != '#' then Prepend([ts[i]], ScanFrom(ts, i + 1, v, lo, hi))
        else if i + 1 == |ts| then ([ts[i]], false)
        else if !(ts[i + 1].Group? && ts[i + 1].delim == Paren) then
          Prepend([ts[i], ts[i + 1]], ScanFrom(ts, i + 2, v, lo, hi))
        else if i + 2 == |ts| || !ts[i + 2].Punct? then
          Prepend([ts[i], ts[i + 1]], ScanFrom(ts, i + 2, v, lo, hi))
        else if ts[i + 2].ch == '*' then
          var rest := ScanFrom(ts, i + 3, v, lo, hi);
          (Repeat(ts[i + 1].stream, v, lo, hi) + rest.0, true)
        else
          Prepend([ts[i], ts[i + 1], ts[i + 2]], ScanFrom(ts, i + 2, v, lo, hi))
      case Group(d, s) =>
        var inner := ScanFrom(s, 0, v, lo, hi);
        var rest := ScanFrom(ts, i + 1, v, lo, hi);
        ([Group(d, inner.0)] + rest.0, inner.1 || rest.1)
      case _ => Prepend([ts[i]], ScanFrom(ts, i + 1, v, lo, hi))
  }

  /** `parse_for_repeat_token` over a whole stream: its output and whether a marker was met. */
  function Scan(ts: seq<Token>, v: string, lo: nat, hi: nat): (seq<Token>, bool) {
    ScanFrom(ts, 0, v, lo, hi)
  }

  /** `ts[at..]` starts with a repeat marker `# ( ... ) *`. */
  predicate MarkerAt(ts: seq<Token>, at: nat) {
    && at + 2 < |ts|
    && ts[at] == Punct('#')
    && ts[at + 1].Group? && ts[at + 1].delim == Paren
    && ts[at + 2] == Punct('*')
  }

  /**
    The `#` branch of `parse_for_repeat_token`, for the `#` at `at`: what it
    appends, where the iterator is afterwards, and whether it met a marker.
   */
  method ScanHash(ts: seq<Token>, at: nat, v: string, lo: nat, hi: nat) returns (piece: seq<Token>, next: nat, marked: bool)
    requires at < |ts| && ts[at] == Punct('#')
    ensures at < next <= |ts|
    ensures piece + ScanFrom(ts, next, v, lo, hi).0 == ScanFrom(ts, at, v, lo, hi).0
    ensures (marked || ScanFrom(ts, next, v, lo, hi).1) == ScanFrom(ts, at, v, lo, hi).1
    ensures marked <==> MarkerAt(ts, at)
    ensures marked ==> next == at + 3 && piece == Repeat(ts[at + 1].stream, v, lo, hi)
  {
    var token := ts[at];
    next, marked := at + 1, false;
    if next < |ts| {
      var token2 := ts[next];
      next := next + 1;
      if token2.Group? && token2.delim == Paren {
        if next < |ts| && ts[next].Punct? {
          if ts[next].ch == '*' {
            marked := true;
            piece := RepeatStream(token2.stream, v, lo, hi);
            next := next + 1;
          } else {
            piece := [token, token2, ts[next]];
          }
        } else {
          piece := [token, token2];
        }
      } else {
        piece := [token, token2];
      }
    } else {
      piece := [token];
    }
  }

  /**
    `parse_for_repeat_token`. The flag the source shares as `&mut bool` is
    passed in as `found0` and handed back as `found`: it is set when a marker
    is met at any depth and never cleared.
   */
  method ScanStream(ts: seq<Token>, v: string, lo: nat, hi: nat, found0: bool) returns (out: seq<Token>, found: bool)
    ensures out == Scan(ts, v, lo, hi).0
    ensures found == (found0 || Scan(ts, v, lo, hi).1)
    decreases ts
  {
    out, found := [], found0;
    var i := 0;
    while i < |ts|
      invariant 0 <= i <= |ts|
      invariant out + ScanFrom(ts, i, v, lo, hi).0 == Scan(ts, v, lo, hi).0
      invariant (found || ScanFrom(ts, i, v, lo, hi).1) == (found0 || Scan(ts, v, lo, hi).1)
      decreases |ts| - i
    {
      var token := ts[i];
      ghost var at := i;
      match token {
        case Punct(c) =>
          if c == '#' {
            var piece, marked;
            piece, i, marked := ScanHash(ts, i, v, lo, hi);
            assert out + piece + ScanFrom(ts, i, v, lo, hi).0 == out + ScanFrom(ts, at, v, lo, hi).0;
            out := out + piece;
            found := found || marked;
          } else {
            assert ScanFrom(ts, at, v, lo, hi) == Prepend([token], ScanFrom(ts, at + 1, v, lo, hi));
            assert out + [token] + ScanFrom(ts, at + 1, v, lo, hi).0 == out + ScanFrom(ts, at, v, lo, hi).0;
            out := out + [token];
            i := i + 1;
          }
        case Group(d, s) =>
          var inner;
          inner, found := ScanStream(s, v, lo, hi, found);
          assert out + [Group(d, inner)] + ScanFrom(ts, at + 1, v, lo, hi).0 == out + ScanFrom(ts, at, v, lo, hi).0;
          out := out + [Group(d, inner)];
          i := i + 1;
        case _ =>
          assert ScanFrom(ts, at, v, lo, hi) == Prepend([token], ScanFrom(ts, at + 1, v, lo, hi));
          assert out + [token] + ScanFrom(ts, at + 1, v, lo, hi).0 == out + ScanFrom(ts, at, v, lo, hi).0;
          out := out + [token];
          i := i + 1;
      }
    }
  }
}

module SeqScanProperties {
  import opened TokenTree
  import opened SeqFill
  import opened SeqScan

  /** The marker `# ( body ) *`. */
  function Marker(body: seq<Token>): seq<Token> {
    [Punct('#'), Group(Paren, body), Punct('*')]
  }

  /** A stream without any `#` is copied unchanged and no marker is met. */
  lemma {:induction false} ScanFromWithoutHash(ts: seq<Token>, i: nat, v: string, lo: nat, hi: nat)
    requires i <= |ts| && NoPunctDeep(ts[i..], '#')
    ensures ScanFrom(ts, i, v, lo, hi) == (ts[i..], false)
    decreases ts, |ts| - i
  {
    if i < |ts| {
      assert ts[i] == ts[i..][0];
      assert ts[i + 1..] == ts[i..][1..];
      assert ts[i..] == [ts[i]] + ts[i + 1..];
      NoPunctDeepAt(ts[i..], '#', 0);
      NoPunctDeepSuffix(ts[i..], '#', 1);
      match ts[i]
      case Group(d, s) =>
        assert s == s[0..];
        ScanFromWithoutHash(s, 0, v, lo, hi);
        ScanFromWithoutHash(ts, i + 1, v, lo, hi);
      case _ =>
        ScanFromWithoutHash(ts, i + 1, v, lo, hi);
    }
  }

  lemma ScanWithoutHash(ts: seq<Token>, v: string, lo: nat, hi: nat)
    requires NoPunctDeep(ts, '#')
    ensures Scan(ts, v, lo, hi) == (ts, false)
  {
    assert ts[0..] == ts;
    ScanFromWithoutHash(ts, 0, v, lo, hi);
  }

  /** Whether a marker is met depends on the body alone, not on the loop variable or the range. */
  lemma {:induction false} ScanFoundIndependent(ts: seq<Token>, i: nat, v: string, lo: nat, hi: nat, v': string, lo': nat, hi': nat)
    requires i <= |ts|
    ensures ScanFrom(ts, i, v, lo, hi).1 == ScanFrom(ts, i, v', lo', hi').1
    decreases ts, |ts| - i
  {
    if i < |ts| {
      match ts[i]
      case Punct(c) =>
        if c != '#' {
          ScanFoundIndependent(ts, i + 1, v, lo, hi, v', lo', hi');
        } else if i + 1 < |ts| {
          if ts[i + 1].Group? && ts[i + 1].delim == Paren && i + 2 < |ts| && ts[i + 2].Punct? && ts[i + 2].ch == '*' {
          } else {
            ScanFoundIndependent(ts, i + 2, v, lo, hi, v', lo', hi');
          }
        }
      case Group(d, s) =>
        ScanFoundIndependent(s, 0, v, lo, hi, v', lo', hi');
        ScanFoundIndependent(ts, i + 1, v, lo, hi, v', lo', hi');
      case _ =>
        ScanFoundIndependent(ts, i + 1, v, lo, hi, v', lo', hi');
    }
  }

  lemma {:induction false} MarkerIsolationFrom(pre: seq<Token>, body: seq<Token>, post: seq<Token>, k: nat, v: string, lo: nat, hi: nat)
    requires k <= |pre| && NoPunctDeep(pre, '#') && NoPunctDeep(post, '#')
    ensures ScanFrom(pre + Marker(body) + post, k, v, lo, hi) == (pre[k..] + Repeat(body, v, lo, hi) + post, true)
    decreases |pre| - k
  {
    var ts := pre + Marker(body) + post;
    if k == |pre| {
      assert ts[k] == Punct('#') && ts[k + 1] == Group(Paren, body) && ts[k + 2] == Punct('*');
      assert ts[k + 3..] == post;
      ScanFromWithoutHash(ts, k + 3, v, lo, hi);
      assert ScanFrom(ts, k, v, lo, hi) == (Repeat(body, v, lo, hi) + ScanFrom(ts, k + 3, v, lo, hi).0, true);
      assert pre[k..] == [];
      assert pre[k..] + Repeat(body, v, lo, hi) + post == Repeat(body, v, lo, hi) + post;
    } else {
      assert ts[k] == pre[k];
      assert pre[k..] == [pre[k]] + pre[k + 1..];
      NoPunctDeepAt(pre, '#', k);
      MarkerIsolationFrom(pre, body, post, k + 1, v, lo, hi);
      var tail := pre[k + 1..] + Repeat(body, v, lo, hi) + post;
      assert pre[k..] + Repeat(body, v, lo, hi) + post == [pre[k]] + tail;
      match ts[k]
      case Group(d, s) =>
        assert NoPunctDeep(s, '#');
        ScanWithoutHash(s, v, lo, hi);
      case _ =>
        assert ScanFrom(ts, k, v, lo, hi) == Prepend([ts[k]], ScanFrom(ts, k + 1, v, lo, hi));
    }
  }

  /**
    Marker mode: with one marker and no other `#` in the body, the tokens
    before and after the marker are copied once, unsubstituted, and the marker
    is replaced by the copies of its contents for every index.
   */
  lemma MarkerIsolation(pre: seq<Token>, body: seq<Token>, post: seq<Token>, v: string, lo: nat, hi: nat)
    requires NoPunctDeep(pre, '#') && NoPunctDeep(post, '#')
    ensures Scan(pre + Marker(body) + post, v, lo, hi) == (pre + Repeat(body, v, lo, hi) + post, true)
  {
    MarkerIsolationFrom(pre, body, post, 0, v, lo, hi);
    assert pre[0..] == pre;
  }

  /** A group is scanned with the same flag: a marker two groups deep is found and expanded in place. */
  lemma NestedMarker(d1: Delim, d2: Delim, body: seq<Token>, v: string, lo: nat, hi: nat)
    ensures Scan([Group(d1, [Group(d2, Marker(body))])], v, lo, hi)
         == ([Group(d1, [Group(d2, Repeat(body, v, lo, hi))])], true)
  {
    var copies := Repeat(body, v, lo, hi);
    var inner := Marker(body);
    assert ScanFrom(inner, 3, v, lo, hi) == ([], false);
    assert copies + [] == copies;
    assert ScanFrom(inner, 0, v, lo, hi) == (copies, true);
    var mid := [Group(d2, inner)];
    assert ScanFrom(mid, 1, v, lo, hi) == ([], false);
    assert [Group(d2, copies)] + [] == [Group(d2, copies)];
    assert ScanFrom(mid, 0, v, lo, hi) == ([Group(d2, copies)], true);
    var outer := [Group(d1, mid)];
    assert ScanFrom(outer, 1, v, lo, hi) == ([], false);
    assert [Group(d1, [Group(d2, copies)])] + [] == [Group(d1, [Group(d2, copies)])];
  }

  /**
    A parenthesis group after `#` followed by a punctuation other than `*`:
    the punctuation is copied with the group and then scanned again, so it
    appears twice.
   */
  lemma PunctAfterGroupTwice(body: seq<Token>, c: char, rest: seq<Token>, v: string, lo: nat, hi: nat)
    requires c != '*' && c != '#'
    ensures Scan([Punct('#'), Group(Paren, body), Punct(c)] + rest, v, lo, hi)
         == ([Punct('#'), Group(Paren, body), Punct(c), Punct(c)] + Scan(rest, v, lo, hi).0, Scan(rest, v, lo, hi).1)
  {
    var ts := [Punct('#'), Group(Paren, body), Punct(c)] + rest;
    assert ts[3..] == rest;
    ScanFromShift(ts, 3, rest, 0, v, lo, hi);
    assert ScanFrom(ts, 2, v, lo, hi) == Prepend([Punct(c)], ScanFrom(ts, 3, v, lo, hi));
    assert ScanFrom(ts, 0, v, lo, hi) == Prepend([Punct('#'), Group(Paren, body), Punct(c)], ScanFrom(ts, 2, v, lo, hi));
    var x := ScanFrom(ts, 3, v, lo, hi).0;
    assert [Punct('#'), Group(Paren, body), Punct(c)] + ([Punct(c)] + x) == [Punct('#'), Group(Paren, body), Punct(c), Punct(c)] + x;
  }

  /**
    The token after `#` is copied without being scanned: a marker inside
    `#[ ... ]`, or inside `#( ... )` not followed by a punctuation, is not
    expanded and does not count as found.
   */
  lemma HashHidesNextToken(d: Delim, inner: seq<Token>, v: string, lo: nat, hi: nat)
    ensures Scan([Punct('#'), Group(d, inner)], v, lo, hi) == ([Punct('#'), Group(d, inner)], false)
  {
    var ts := [Punct('#'), Group(d, inner)];
    assert ScanFrom(ts, 2, v, lo, hi) == ([], false);
    assert ts + [] == ts;
  }

  lemma {:induction false} ScanFromShift(ts: seq<Token>, i: nat, us: seq<Token>, j: nat, v: string, lo: nat, hi: nat)
    requires i <= |ts| && j <= |us| && ts[i..] == us[j..]
    ensures ScanFrom(ts, i, v, lo, hi) == ScanFrom(us, j, v, lo, hi)
    decreases |ts| - i
  {
    if i < |ts| {
      forall k | i <= k < |ts|
        ensures ts[k] == us[k - i + j]
      {
        assert ts[k] == ts[i..][k - i];
      }
      forall k | i <= k <= |ts|
        ensures ts[k..] == us[k - i + j..]
      {
        assert ts[k..] == ts[i..][k - i..];
        assert us[k - i + j..] == us[j..][k - i..];
      }
      match ts[i]
      case Punct(c) =>
        if c != '#' {
          ScanFromShift(ts, i + 1, us, j + 1, v, lo, hi);
        } else if i + 1 < |ts| {
          if ts[i + 1].Group? && ts[i + 1].delim == Paren && i + 2 < |ts| && ts[i + 2].Punct? && ts[i + 2].ch == '*' {
            ScanFromShift(ts, i + 3, us, j + 3, v, lo, hi);
          } else {
            ScanFromShift(ts, i + 2, us, j + 2, v, lo, hi);
          }
        }
      case _ =>
        ScanFromShift(ts, i + 1, us, j + 1, v, lo, hi);
    }
  }
}
