/**
  The `seq!` macro itself: the split of the invocation into header and body,
  the header parser (`SeqHeader::parse`), the conversion of the range to
  `[start, stop)`, and the choice between whole-body repetition and the
  scanner's output.
 */
module SeqMain {
  import opened Wrappers
  import opened Decimal
  import opened TokenTree
  import opened SeqFill
  import opened SeqScan

  const U64_MAX: nat := 0xFFFF_FFFF_FFFF_FFFF

  /** `SeqHeader`: the loop variable and the two integer literals as written. */
  datatype Header = Header(variable: string, start: string, stop: string, inclusive: bool)

  /** What the header parser wanted where it stopped. */
  datatype Expected = ExpectedIdent | ExpectedIn | ExpectedIntLit | ExpectedDotDot | ExpectedEnd

  /** The header failed to parse at token `at` (`at` is the header's length at its end). */
  datatype HeaderError = HeaderError(at: nat, expected: Expected)

  datatype SeqError =
    | MissingBody             // `loop_body.expect(..)`
    | BadHeader(HeaderError)  // `syn::parse::<SeqHeader>(..).expect(..)`
    | StartOutOfRange         // `base10_parse::<u64>()` of the start
    | StopOutOfRange          // `base10_parse::<u64>()` of the stop
    | StopOverflow            // `range_stop + 1` at `u64::MAX`

  /** An integer literal token: a nonempty run of decimal digits. */
  predicate IsIntLit(t: Token) {
    t.Lit? && |t.text| > 0 && AllDigits(t.text)
  }

  predicate ValidHeader(h: Header) {
    |h.start| > 0 && AllDigits(h.start) && |h.stop| > 0 && AllDigits(h.stop)
  }

  /** The tokens of `<variable> in <start> .. [=] <stop>`. */
  function Render(h: Header): seq<Token> {
    [Ident(h.variable), Ident("in"), Lit(h.start), Punct('.'), Punct('.')]
      + (if h.inclusive then [Punct('=')] else [])
      + [Lit(h.stop)]
  }

  predicate IsInvisible(t: Token) {
    t.Group? && t.delim == NoDelim
  }

  /**
    The tokens syn's cursor reads when it parses identifiers, punctuation
    and literals: it steps into invisible groups (a `$x:expr` fragment
    passed on by `macro_rules!`) as if their delimiters were not there.
   */
  function Flatten(ts: seq<Token>): (r: seq<Token>)
    ensures forall k :: 0 <= k < |r| ==> !IsInvisible(r[k])
    decreases ts
  {
    if ts == [] then [] else FlattenOne(ts[0]) + Flatten(ts[1..])
  }

  /** What one token contributes to `Flatten`. */
  function FlattenOne(t: Token): (r: seq<Token>)
    ensures forall k :: 0 <= k < |r| ==> !IsInvisible(r[k])
    decreases t, 1
  {
    if IsInvisible(t) then Flatten(t.stream) else [t]
  }

  /**
    `SeqHeader::parse`, run by `syn::parse`, which also rejects tokens left
    over after the header. The header is read through invisible groups, and
    an error position counts tokens of that flattened header.
   */
  function ParseHeader(ts: seq<Token>): (r: Result<Header, HeaderError>)
    ensures r.Ok? ==> ValidHeader(r.value)
    ensures r.Err? ==> r.error.at <= |Flatten(ts)|
  {
    var fs := Flatten(ts);
    if |fs| == 0 || !fs[0].Ident? then Err(HeaderError(0, ExpectedIdent))
    else if |fs| == 1 || fs[1] != Ident("in") then Err(HeaderError(1, ExpectedIn))
    else if |fs| == 2 || !IsIntLit(fs[2]) then Err(HeaderError(2, ExpectedIntLit))
    else if |fs| < 5 || fs[3] != Punct('.') || fs[4] != Punct('.') then Err(HeaderError(3, ExpectedDotDot))
    else
      var inclusive := |fs| > 5 && fs[5] == Punct('=');
      var k := if inclusive then 6 else 5;
      if |fs| == k || !IsIntLit(fs[k]) then Err(HeaderError(k, ExpectedIntLit))
      else if |fs| > k + 1 then Err(HeaderError(k + 1, ExpectedEnd))
      else Ok(Header(fs[0].name, fs[2].text, fs[k].text, inclusive))
  }

  predicate IsBrace(t: Token) {
    t.Group? && t.delim == Brace
  }

  /**
    The split of the invocation: every brace group sets the body (so the last
    one wins) and every other token goes to the header.
   */
  function Split(ts: seq<Token>): (seq<Token>, Option<seq<Token>>) {
    if ts == [] then ([], None)
    else
      var prior := Split(ts[..|ts| - 1]);
      var t := ts[|ts| - 1];
      if IsBrace(t) then (prior.0, Some(t.stream)) else (prior.0 + [t], prior.1)
  }

  /** The range end the loops run to: one past `stop` when the range is inclusive. */
  function EffectiveStop(stop: nat, inclusive: bool): (end: nat)
    ensures stop <= end <= stop + 1
    ensures stop < end <==> inclusive
  {
    if inclusive then stop + 1 else stop
  }

  /** What `seq!` expands to, or why it fails. */
  function Expansion(input: seq<Token>): Result<seq<Token>, SeqError> {
    var (header, body) := Split(input);
    if body.None? then Err(MissingBody)
    else
      match ParseHeader(header)
      case Err(e) => Err(BadHeader(e))
      case Ok(h) =>
        var lo := Value(h.start);
        var stop := Value(h.stop);
        if lo > U64_MAX then Err(StartOutOfRange)
        else if stop > U64_MAX then Err(StopOutOfRange)
        else if h.inclusive && stop == U64_MAX then Err(StopOverflow)
        else
          var hi := EffectiveStop(stop, h.inclusive);
          var scanned := Scan(body.value, h.variable, lo, hi);
          Ok(if scanned.1 then scanned.0 else Repeat(body.value, h.variable, lo, hi))
  }

  /** The first loop of `seq`: header tokens and the loop body. */
  method SplitInvocation(input: seq<Token>) returns (header: seq<Token>, body: Option<seq<Token>>)
    ensures (header, body) == Split(input)
  {
    header, body := [], None;
    for i := 0 to |input|
      invariant (header, body) == Split(input[..i])
    {
      var token := input[i];
      assert input[..i + 1][..i] == input[..i];
      if token.Group? && token.delim == Brace {
        body := Some(token.stream);
      } else {
        header := header + [token];
      }
    }
    assert input[..|input|] == input;
  }

  /** `seq`: the proc-macro entry point, with its panics as errors. */
  method Expand(input: seq<Token>) returns (r: Result<seq<Token>, SeqError>)
    ensures r == Expansion(input)
  {
    var header, body := SplitInvocation(input);
    if body.None? {
      return Err(MissingBody);
    }
    var parsed := ParseHeader(header);
    if parsed.Err? {
      return Err(BadHeader(parsed.error));
    }
    var h := parsed.value;
    var lo := Value(h.start);
    var stop := Value(h.stop);
    if lo > U64_MAX {
      return Err(StartOutOfRange);
    }
    if stop > U64_MAX {
      return Err(StopOutOfRange);
    }
    var hi := stop;
    if h.inclusive {
      if stop == U64_MAX {
        return Err(StopOverflow);
      }
      hi := stop + 1;
    }
    var scanned, found := ScanStream(body.value, h.variable, lo, hi, false);
    if !found {
      var out := RepeatStream(body.value, h.variable, lo, hi);
      r := Ok(out);
    } else {
      r := Ok(scanned);
    }
  }
}

module SeqMainProperties {
  import opened Wrappers
  import opened Decimal
  import opened TokenTree
  import opened SeqFill
  import opened SeqFillProperties
  import opened SeqScan
  import opened SeqScanProperties
  import opened SeqMain

  /** Every well-formed header is read back exactly. */
  lemma HeaderRoundTrip(h: Header)
    requires ValidHeader(h)
    ensures ParseHeader(Render(h)) == Ok(h)
  {
    FlattenVisible(Render(h));
    HeaderReadThrough(Render(h), h);
  }

  /** Any header stream that reads as a rendered header, invisible groups and all, parses to it. */
  lemma HeaderReadThrough(ts: seq<Token>, h: Header)
    requires ValidHeader(h) && Flatten(ts) == Render(h)
    ensures ParseHeader(ts) == Ok(h)
  {
    var fs := Flatten(ts);
    assert fs[1] == Ident("in") && fs[3] == Punct('.') && fs[4] == Punct('.');
    assert IsIntLit(fs[2]);
    if h.inclusive {
      assert |fs| == 7 && fs[5] == Punct('=') && fs[6] == Lit(h.stop);
    } else {
      assert |fs| == 6 && fs[5] == Lit(h.stop);
    }
  }

  /** The header is accepted only in the form `<ident> in <int> .. [=] <int>`, nothing more. */
  lemma HeaderOnlyThatForm(ts: seq<Token>)
    requires ParseHeader(ts).Ok?
    ensures Render(ParseHeader(ts).value) == Flatten(ts)
  {
    var h := ParseHeader(ts).value;
    var fs := Flatten(ts);
    if h.inclusive {
      assert |fs| == 7;
    } else {
      assert |fs| == 6;
      assert fs[5] != Punct('=');
    }
  }

  /** Reading through invisible groups distributes over concatenation. */
  lemma {:induction false} FlattenAppend(a: seq<Token>, b: seq<Token>)
    ensures Flatten(a + b) == Flatten(a) + Flatten(b)
    decreases |a|
  {
    if a == [] {
      assert a + b == b;
    } else {
      var ab := a + b;
      assert ab[0] == a[0];
      assert ab[1..] == a[1..] + b;
      assert Flatten(ab) == FlattenOne(a[0]) + Flatten(a[1..] + b);
      FlattenAppend(a[1..], b);
      assert Flatten(a) == FlattenOne(a[0]) + Flatten(a[1..]);
    }
  }

  /** A stream without invisible groups is read as it is. */
  lemma {:induction false} FlattenVisible(ts: seq<Token>)
    requires forall k :: 0 <= k < |ts| ==> !IsInvisible(ts[k])
    ensures Flatten(ts) == ts
    decreases |ts|
  {
    if ts != [] {
      assert forall k :: 0 <= k < |ts| - 1 ==> ts[1..][k] == ts[k + 1];
      FlattenVisible(ts[1..]);
      assert FlattenOne(ts[0]) == [ts[0]];
      assert [ts[0]] + ts[1..] == ts;
    }
  }

  /**
    A bound passed through `macro_rules!` as `$n:expr` arrives wrapped in an
    invisible group, and is read as the literal inside it.
   */
  lemma InvisibleStopRead(v: string, start: string, stop: string)
    requires ValidHeader(Header(v, start, stop, false))
    ensures ParseHeader([Ident(v), Ident("in"), Lit(start), Punct('.'), Punct('.'), Group(NoDelim, [Lit(stop)])])
         == Ok(Header(v, start, stop, false))
  {
    var pre := [Ident(v), Ident("in"), Lit(start), Punct('.'), Punct('.')];
    var group := Group(NoDelim, [Lit(stop)]);
    FlattenVisible(pre);
    InvisibleLiteral(group, stop);
    FlattenAppend(pre, [group]);
    assert pre + [group] == [Ident(v), Ident("in"), Lit(start), Punct('.'), Punct('.'), Group(NoDelim, [Lit(stop)])];
    var h := Header(v, start, stop, false);
    assert Render(h) == pre + [Lit(stop)];
    HeaderReadThrough(pre + [group], h);
  }

  /** An invisible group around one literal reads as that literal. */
  lemma InvisibleLiteral(group: Token, text: string)
    requires group == Group(NoDelim, [Lit(text)])
    ensures Flatten([group]) == [Lit(text)]
  {
    FlattenVisible([Lit(text)]);
    assert [group][1..] == [];
    assert Flatten([group]) == FlattenOne(group) + Flatten([]);
  }

  /** The header split is a filter: splitting a concatenation splits each part. */
  lemma {:induction false} SplitAppend(a: seq<Token>, b: seq<Token>)
    ensures Split(a + b).0 == Split(a).0 + Split(b).0
    ensures Split(a + b).1 == if Split(b).1.Some? then Split(b).1 else Split(a).1
    decreases |b|
  {
    if b == [] {
      assert a + b == a;
    } else {
      var b' := b[..|b| - 1];
      assert (a + b)[..|a + b| - 1] == a + b';
      SplitAppend(a, b');
    }
  }

  /** The body is the stream of the last top-level brace group; there is one exactly when some token is a brace group. */
  lemma {:induction false} SplitBody(ts: seq<Token>)
    ensures Split(ts).1.None? <==> forall k :: 0 <= k < |ts| ==> !IsBrace(ts[k])
    ensures Split(ts).1.Some? ==>
      exists k :: 0 <= k < |ts| && ts[k] == Group(Brace, Split(ts).1.value)
        && forall j :: k < j < |ts| ==> !IsBrace(ts[j])
    ensures forall t :: t in Split(ts).0 ==> t in ts && !IsBrace(t)
  {
    if ts != [] {
      var prior := ts[..|ts| - 1];
      SplitBody(prior);
      var last := |ts| - 1;
      if IsBrace(ts[last]) {
        assert ts[last] == Group(Brace, Split(ts).1.value);
      } else if Split(prior).1.Some? {
        var k :| 0 <= k < |prior| && prior[k] == Group(Brace, Split(prior).1.value)
          && forall j :: k < j < |prior| ==> !IsBrace(prior[j]);
        assert ts[k] == prior[k];
      }
    }
  }

  lemma SplitInvocationOf(h: Header, body: seq<Token>)
    ensures Split(Render(h) + [Group(Brace, body)]) == (Render(h), Some(body))
  {
    var ts := Render(h);
    SplitNoBrace(ts);
    SplitAppend(ts, [Group(Brace, body)]);
    assert [Group(Brace, body)][..0] == [];
  }

  lemma {:induction false} SplitNoBrace(ts: seq<Token>)
    requires forall k :: 0 <= k < |ts| ==> !IsBrace(ts[k])
    ensures Split(ts) == (ts, None)
  {
    if ts != [] {
      SplitNoBrace(ts[..|ts| - 1]);
      assert ts[..|ts| - 1] + [ts[|ts| - 1]] == ts;
    }
  }

  /**
    Without a marker the whole body is substituted once per index of
    `[start, stop)` (`stop + 1` when inclusive): `hi - lo` copies of equal
    length, and nothing at all for an empty range.
   */
  lemma ExpandWholeBody(h: Header, body: seq<Token>)
    requires ValidHeader(h)
    requires Value(h.start) <= U64_MAX && Value(h.stop) <= U64_MAX
    requires h.inclusive ==> Value(h.stop) < U64_MAX
    requires !Scan(body, h.variable, Value(h.start), EffectiveStop(Value(h.stop), h.inclusive)).1
    ensures var lo, hi := Value(h.start), EffectiveStop(Value(h.stop), h.inclusive);
      var r := Expansion(Render(h) + [Group(Brace, body)]);
      && r == Ok(Repeat(body, h.variable, lo, hi))
      && (hi <= lo ==> r.value == [])
      && (lo < hi ==> |r.value| == (hi - lo) * |Fill(body, h.variable, lo)|)
  {
    SplitInvocationOf(h, body);
    HeaderRoundTrip(h);
    RepeatLength(body, h.variable, Value(h.start), EffectiveStop(Value(h.stop), h.inclusive));
  }

  /** With a marker anywhere in the body, the scanner's single pass is the output. */
  lemma ExpandMarkerMode(h: Header, body: seq<Token>)
    requires ValidHeader(h)
    requires Value(h.start) <= U64_MAX && Value(h.stop) <= U64_MAX
    requires h.inclusive ==> Value(h.stop) < U64_MAX
    requires Scan(body, h.variable, Value(h.start), EffectiveStop(Value(h.stop), h.inclusive)).1
    ensures Expansion(Render(h) + [Group(Brace, body)])
         == Ok(Scan(body, h.variable, Value(h.start), EffectiveStop(Value(h.stop), h.inclusive)).0)
  {
    SplitInvocationOf(h, body);
    HeaderRoundTrip(h);
  }

  /**
    `seq!(N in lo..hi { pre #( inner )* post })`, with no other `#`: `pre` and
    `post` appear once and unsubstituted, `inner` once per index.
   */
  lemma ExpandMarkerIsolation(h: Header, pre: seq<Token>, inner: seq<Token>, post: seq<Token>)
    requires ValidHeader(h)
    requires Value(h.start) <= U64_MAX && Value(h.stop) <= U64_MAX
    requires h.inclusive ==> Value(h.stop) < U64_MAX
    requires NoPunctDeep(pre, '#') && NoPunctDeep(post, '#')
    ensures Expansion(Render(h) + [Group(Brace, pre + Marker(inner) + post)])
         == Ok(pre + Repeat(inner, h.variable, Value(h.start), EffectiveStop(Value(h.stop), h.inclusive)) + post)
  {
    var lo, hi := Value(h.start), EffectiveStop(Value(h.stop), h.inclusive);
    MarkerIsolation(pre, inner, post, h.variable, lo, hi);
    ExpandMarkerMode(h, pre + Marker(inner) + post);
  }

  /** A missing body fails before the header is looked at. */
  lemma ExpandMissingBody(input: seq<Token>)
    requires forall k :: 0 <= k < |input| ==> !IsBrace(input[k])
    ensures Expansion(input) == Err(MissingBody)
  {
    SplitNoBrace(input);
  }

  /** `N 0..5 { }` lacks `in`: the header error points at the second token. */
  lemma MissingInKeyword()
    ensures Expansion([Ident("N"), Lit("0"), Punct('.'), Punct('.'), Lit("5"), Group(Brace, [])])
         == Err(BadHeader(HeaderError(1, ExpectedIn)))
  {
    var header := [Ident("N"), Lit("0"), Punct('.'), Punct('.'), Lit("5")];
    SplitNoBrace(header);
    SplitAppend(header, [Group(Brace, [])]);
    assert [Group(Brace, [])][..0] == [];
    assert header + [Group(Brace, [])] == [Ident("N"), Lit("0"), Punct('.'), Punct('.'), Lit("5"), Group(Brace, [])];
  }

  /** `seq!(N in 3..5 { foo~N })` expands to `foo3 foo4`. */
  lemma PasteExample()
    ensures Expansion(Render(Header("N", "3", "5", false)) + [Group(Brace, [Ident("foo"), Punct('~'), Ident("N")])])
         == Ok([Ident("foo3"), Ident("foo4")])
  {
    var h := Header("N", "3", "5", false);
    var body := [Ident("foo"), Punct('~'), Ident("N")];
    assert Value("3") == 3 && Value("5") == 5;
    assert ScanFrom(body, 3, "N", 3, 5) == ([], false);
    assert !ScanFrom(body, 2, "N", 3, 5).1;
    assert !ScanFrom(body, 1, "N", 3, 5).1;
    assert !Scan(body, "N", 3, 5).1;
    ExpandWholeBody(h, body);
    assert [Ident("foo")] + Chain(["N"]) + [] == body;
    FillPasteChain("foo", ["N"], [], "N", 3);
    FillPasteChain("foo", ["N"], [], "N", 4);
    assert Dec(3) == "3" && Dec(4) == "4";
    assert Pasted(["N"], "N", 3) == "3" && Pasted(["N"], "N", 4) == "4";
    assert Fill([], "N", 3) == [] && Fill([], "N", 4) == [];
    assert "foo" + "3" == "foo3" && "foo" + "4" == "foo4";
    assert "foo" != "N";
    assert Fill(body, "N", 3) == [Ident("foo3")];
    assert Fill(body, "N", 4) == [Ident("foo4")];
    assert Repeat(body, "N", 3, 5) == Repeat(body, "N", 3, 4) + Fill(body, "N", 4);
    assert Repeat(body, "N", 3, 4) == Fill(body, "N", 3);
    assert [Ident("foo3")] + [Ident("foo4")] == [Ident("foo3"), Ident("foo4")];
  }
}
