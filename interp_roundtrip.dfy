/** The round trip of the LEAP-to-WEAP push: an Interp expression written from clean
    (year, value) pairs is split around the window and spliced back with new window data;
    the result is the expression with the window's pairs replaced and everything else
    (earlier pairs, later pairs, growth rate, closing text) kept. */
module InterpRoundTrip {
  import opened Results
  import opened PyText
  import opened InterpSplit

  /** A character a token may hold: not the separator, no parenthesis, no whitespace, and
      unchanged by `lower()`. */
  predicate TokenChar(c: char, sep: char) {
    c != sep && c != '(' && c != ')' && !IsSpace(c) && LowerChar(c) == c
  }

  predicate CleanToken(t: string, sep: char) {
    t != [] && forall k :: 0 <= k < |t| ==> TokenChar(t[k], sep)
  }

  /** A pair as the splitter would read it back: clean tokens, and a year text that `int()`
      turns into the pair's year. */
  predicate CleanPair(p: Pair, sep: char) {
    CleanToken(p.yearText, sep) && CleanToken(p.valueText, sep) && ParseInt(p.yearText) == Some(p.year)
  }

  predicate CleanPairs(ps: seq<Pair>, sep: char) {
    forall k :: 0 <= k < |ps| ==> CleanPair(ps[k], sep)
  }

  predicate CleanGrowth(g: Option<string>, sep: char) {
    g.Some? ==> CleanToken(g.value, sep)
  }

  /** A list separator that is neither parenthesis and is unchanged by `lower()`. */
  predicate GoodSeparator(sep: char) {
    sep != '(' && sep != ')' && LowerChar(sep) == sep
  }

  /** Text the lower-casing and the `interp(` removal leave alone. */
  predicate InnerChars(s: string) {
    forall k :: 0 <= k < |s| ==> s[k] != '(' && s[k] != ')' && LowerChar(s[k]) == s[k]
  }

  function PairTokens(ps: seq<Pair>): (r: seq<string>)
    ensures |r| == 2 * |ps|
  {
    if ps == [] then [] else [ps[0].yearText, ps[0].valueText] + PairTokens(ps[1..])
  }

  function Tokens(ps: seq<Pair>, g: Option<string>): seq<string> {
    PairTokens(ps) + (if g.Some? then [g.value] else [])
  }

  /** The Interp expression written from pairs, an optional growth rate and the text from
      the closing parenthesis on. */
  function Expression(ps: seq<Pair>, g: Option<string>, trailer: string, sep: char): string
    requires ps != [] || g.Some?
  {
    "Interp(" + Join(Tokens(ps, g), sep) + trailer
  }

  // ---- tokens and their text ----

  lemma {:induction false} JoinPairTokens(ps: seq<Pair>, tail: seq<string>, sep: char)
    requires tail != []
    ensures Join(PairTokens(ps) + tail, sep) == Render(ps, sep) + Join(tail, sep)
  {
    if ps == [] {
      assert PairTokens(ps) + tail == tail;
    } else {
      var p := ps[0];
      var rest := PairTokens(ps[1..]) + tail;
      var r := Render(ps[1..], sep);
      assert Join(PairTokens(ps) + tail, sep) == p.yearText + [sep] + p.valueText + [sep] + Join(rest, sep) by {
        assert PairTokens(ps) + tail == [p.yearText, p.valueText] + rest;
        JoinTwo(p.yearText, p.valueText, rest, sep);
      }
      assert Join(rest, sep) == r + Join(tail, sep) by {
        JoinPairTokens(ps[1..], tail, sep);
      }
      assert Render(ps, sep) == p.yearText + [sep] + p.valueText + [sep] + r;
    }
  }

  lemma JoinTwo(a: string, b: string, rest: seq<string>, sep: char)
    requires rest != []
    ensures Join([a, b] + rest, sep) == a + [sep] + b + [sep] + Join(rest, sep)
  {
    var all := [a, b] + rest;
    assert all[1..] == [b] + rest;
    assert all[1..][1..] == rest;
  }

  lemma {:induction false} JoinPairTokensLast(ps: seq<Pair>, sep: char)
    requires ps != []
    ensures Join(PairTokens(ps), sep) + [sep] == Render(ps, sep)
  {
    var p := ps[0];
    if |ps| == 1 {
      assert ps[1..] == [];
      assert PairTokens(ps) == [p.yearText, p.valueText];
      assert PairTokens(ps)[1..] == [p.valueText];
    } else {
      var rest := PairTokens(ps[1..]);
      var all := PairTokens(ps);
      assert all[1..] == [p.valueText] + rest;
      assert ([p.valueText] + rest)[1..] == rest;
      JoinPairTokensLast(ps[1..], sep);
    }
  }

  lemma {:induction false} TokensClean(ps: seq<Pair>, g: Option<string>, sep: char)
    requires CleanPairs(ps, sep) && CleanGrowth(g, sep)
    ensures forall i :: 0 <= i < |Tokens(ps, g)| ==> CleanToken(Tokens(ps, g)[i], sep)
  {
    if ps != [] {
      TokensClean(ps[1..], g, sep);
      assert Tokens(ps, g) == [ps[0].yearText, ps[0].valueText] + Tokens(ps[1..], g);
      assert CleanPair(ps[0], sep);
      assert forall k :: 0 <= k < |ps[1..]| ==> ps[1..][k] == ps[k + 1];
    }
  }

  lemma InnerCharsAppend(a: string, b: string)
    requires InnerChars(a) && InnerChars(b)
    ensures InnerChars(a + b)
  {
    forall k | 0 <= k < |a + b|
      ensures (a + b)[k] != '(' && (a + b)[k] != ')' && LowerChar((a + b)[k]) == (a + b)[k]
    {
      if k >= |a| {
        assert (a + b)[k] == b[k - |a|];
      }
    }
  }

  lemma {:induction false} JoinInnerChars(toks: seq<string>, sep: char)
    requires |toks| >= 1 && GoodSeparator(sep)
    requires forall i :: 0 <= i < |toks| ==> CleanToken(toks[i], sep)
    ensures InnerChars(Join(toks, sep))
  {
    assert CleanToken(toks[0], sep);
    if |toks| > 1 {
      JoinInnerChars(toks[1..], sep);
      assert InnerChars([sep]);
      InnerCharsAppend(toks[0], [sep]);
      InnerCharsAppend(toks[0] + [sep], Join(toks[1..], sep));
    }
  }

  // ---- reading the expression back ----

  lemma LowerExpression(inner: string, trailer: string)
    requires InnerChars(inner)
    ensures Lower("Interp(" + inner + trailer) == "interp(" + inner + Lower(trailer)
  {
    var e := "Interp(" + inner + trailer;
    var r := "interp(" + inner + Lower(trailer);
    assert LowerChar('I') == 'i';
    forall k | 0 <= k < |e|
      ensures Lower(e)[k] == r[k]
    {
      if k < 7 {
        assert e[k] == "Interp("[k] && r[k] == "interp("[k];
      } else if k < 7 + |inner| {
        assert e[k] == inner[k - 7] && r[k] == inner[k - 7];
      } else {
        assert e[k] == trailer[k - 7 - |inner|] && r[k] == Lower(trailer)[k - 7 - |inner|];
      }
    }
  }

  lemma NoParens(inner: string)
    requires InnerChars(inner)
    ensures '(' !in inner && ')' !in inner
  {
    forall k | 0 <= k < |inner| ensures inner[k] != '(' && inner[k] != ')' { }
  }

  /** After lower-casing, the removal of `interp(` strips the opening keyword and leaves
      the tokens and the closing parenthesis in place. */
  lemma RemovedText(inner: string, low: string)
    requires InnerChars(inner)
    requires low != [] && low[0] == ')'
    ensures RemoveInterpOpen("interp(" + inner + low) == inner + [')'] + RemoveInterpOpen(low[1..])
  {
    var s := "interp(" + inner + low;
    assert s[..7] == "interp(";
    assert s[7..] == inner + low;
    NoParens(inner);
    RemoveInterpOpenSkips(inner, low);
    assert !(|low| >= 7 && low[..7] == "interp(") by {
      if |low| >= 7 {
        assert low[..7][0] == ')';
      }
    }
    assert RemoveInterpOpen(low) == [')'] + RemoveInterpOpen(low[1..]);
  }

  lemma InnerTextOf(inner: string, trailer: string)
    requires InnerChars(inner)
    requires trailer != [] && trailer[0] == ')'
    ensures InnerText("Interp(" + inner + trailer) == inner
  {
    var low := Lower(trailer);
    LowerExpression(inner, trailer);
    RemovedText(inner, low);
    NoParens(inner);
    var rest := RemoveInterpOpen(low[1..]);
    var t := inner + [')'] + rest;
    FindAfter(inner, ')', rest);
    assert t[..|inner|] == inner;
  }

  lemma TerminationOf(inner: string, trailer: string)
    requires InnerChars(inner)
    requires trailer != [] && trailer[0] == ')'
    ensures Termination("Interp(" + inner + trailer) == trailer
  {
    var e := "Interp(" + inner + trailer;
    var head := "Interp(" + inner;
    assert ')' !in head by {
      forall k | 0 <= k < |head| ensures head[k] != ')' {
        if k >= 7 {
          assert head[k] == inner[k - 7];
        }
      }
    }
    assert e == head + [')'] + trailer[1..];
    FindAfter(head, ')', trailer[1..]);
    assert e[|head|..] == trailer;
  }

  lemma {:induction false} ParseClean(ps: seq<Pair>, g: Option<string>, sep: char)
    requires CleanPairs(ps, sep) && CleanGrowth(g, sep)
    ensures ParsePairs(Tokens(ps, g)) == Ok(Walk(ps, g))
  {
    if ps == [] {
      assert PairTokens(ps) == [];
      if g.Some? {
        assert Tokens(ps, g) == [g.value];
        assert NoSpace(g.value);
      } else {
        assert Tokens(ps, g) == [];
      }
    } else {
      var p := ps[0];
      assert CleanPair(p, sep);
      assert NoSpace(p.yearText) && NoSpace(p.valueText);
      var toks := Tokens(ps, g);
      assert toks == [p.yearText, p.valueText] + Tokens(ps[1..], g);
      assert toks[2..] == Tokens(ps[1..], g);
      assert CleanPairs(ps[1..], sep) by {
        forall k | 0 <= k < |ps[1..]| ensures CleanPair(ps[1..][k], sep) {
          assert ps[1..][k] == ps[k + 1];
        }
      }
      ParseClean(ps[1..], g, sep);
      assert [Pair(p.year, p.yearText, p.valueText)] + ps[1..] == ps;
    }
  }

  lemma {:induction false} EarlierAll(ps: seq<Pair>, startyear: int)
    requires forall k :: 0 <= k < |ps| ==> ps[k].year < startyear
    ensures Earlier(ps, startyear) == ps
  {
    if ps != [] {
      EarlierAll(ps[1..], startyear);
      assert [ps[0]] + ps[1..] == ps;
    }
  }

  lemma {:induction false} EarlierNone(ps: seq<Pair>, startyear: int)
    requires forall k :: 0 <= k < |ps| ==> ps[k].year >= startyear
    ensures Earlier(ps, startyear) == []
  {
    if ps != [] {
      EarlierNone(ps[1..], startyear);
    }
  }

  lemma {:induction false} LaterAll(ps: seq<Pair>, endyear: int)
    requires forall k :: 0 <= k < |ps| ==> ps[k].year > endyear
    ensures Later(ps, endyear) == ps
  {
    if ps != [] {
      LaterAll(ps[1..], endyear);
      assert [ps[0]] + ps[1..] == ps;
    }
  }

  lemma {:induction false} LaterNone(ps: seq<Pair>, endyear: int)
    requires forall k :: 0 <= k < |ps| ==> ps[k].year <= endyear
    ensures Later(ps, endyear) == []
  {
    if ps != [] {
      LaterNone(ps[1..], endyear);
    }
  }

  // ---- the splice ----

  lemma CleanPairsAppend(a: seq<Pair>, b: seq<Pair>, sep: char)
    requires CleanPairs(a, sep) && CleanPairs(b, sep)
    ensures CleanPairs(a + b, sep)
  {
    forall k | 0 <= k < |a + b| ensures CleanPair((a + b)[k], sep) {
      if k >= |a| {
        assert (a + b)[k] == b[k - |a|];
      }
    }
  }

  lemma JoinFirst(parts: seq<string>, sep: char)
    requires |parts| >= 1 && parts[0] != []
    ensures Join(parts, sep) != [] && Join(parts, sep)[0] == parts[0][0]
  {
  }

  lemma RenderFirst(ps: seq<Pair>, sep: char)
    requires ps != [] && ps[0].yearText != []
    ensures Render(ps, sep) != [] && Render(ps, sep)[0] == ps[0].yearText[0]
  {
    assert Render(ps, sep) == ps[0].yearText + ([sep] + ps[0].valueText + [sep] + Render(ps[1..], sep));
  }

  /** Joined clean pair tokens are non-empty and end in a character other than `(`. */
  lemma JoinedPairs(ps: seq<Pair>, sep: char)
    requires ps != [] && CleanPairs(ps, sep) && GoodSeparator(sep)
    ensures Join(PairTokens(ps), sep) != []
    ensures Join(PairTokens(ps), sep)[|Join(PairTokens(ps), sep)| - 1] != '('
    ensures Join(PairTokens(ps), sep)[0] == ps[0].yearText[0]
  {
    var toks := PairTokens(ps);
    assert CleanPair(ps[0], sep);
    assert toks[0] == ps[0].yearText;
    JoinFirst(toks, sep);
    TokensClean(ps, None, sep);
    assert Tokens(ps, None) == toks;
    JoinInnerChars(toks, sep);
  }

  /** The prefix plus the separator `add_leap_data_to_weap_interp` puts back gives the
      opening keyword followed by the earlier pairs, each with its trailing separator. */
  lemma AssembledText(pre: seq<Pair>, newData: string, sep: char)
    requires CleanPairs(pre, sep) && GoodSeparator(sep)
    ensures var prefix := TrimLast("Interp(" + Render(pre, sep), sep);
            prefix != []
            && (if prefix[|prefix| - 1] == '(' then prefix + newData else prefix + [sep] + newData)
               == "Interp(" + Render(pre, sep) + newData
  {
    if pre == [] {
      assert "Interp(" + Render(pre, sep) == "Interp(";
    } else {
      var j := Join(PairTokens(pre), sep);
      JoinPairTokensLast(pre, sep);
      JoinedPairs(pre, sep);
      assert "Interp(" + Render(pre, sep) == ("Interp(" + j) + [sep];
      assert TrimLast("Interp(" + Render(pre, sep), sep) == "Interp(" + j;
    }
  }

  lemma SpliceWith(prefix: string, newData: string, suffix: string, sep: char, assembled: string)
    requires prefix != [] && suffix != []
    requires (if prefix[|prefix| - 1] == '(' then prefix + newData else prefix + [sep] + newData) == assembled
    ensures Splice(prefix, newData, suffix, sep)
         == if suffix[0] == ')' then assembled[..|assembled| - 1] + suffix else assembled + suffix
  {
  }

  lemma DropSeparator(head: string, x: string, inner: string, sep: char)
    requires inner + [sep] == x
    ensures (head + x)[..|head + x| - 1] == head + inner
  {
    assert head + x == (head + inner) + [sep];
  }

  lemma SameBeforeSeparator(inner: string, y: string, sep: char)
    requires inner + [sep] == y + [sep]
    ensures inner == y
  {
    assert inner == (inner + [sep])[..|inner|];
  }

  /** The inner text of a growth-free expression is its rendered pairs without the last
      separator. */
  lemma InnerNoGrowth(all: seq<Pair>, sep: char)
    requires all != []
    ensures Join(Tokens(all, None), sep) + [sep] == Render(all, sep)
  {
    JoinPairTokensLast(all, sep);
    assert Tokens(all, None) == PairTokens(all);
  }

  lemma InnerGrowth(all: seq<Pair>, t: string, sep: char)
    ensures Join(Tokens(all, Some(t)), sep) == Render(all, sep) + t
  {
    JoinPairTokens(all, [t], sep);
    assert Tokens(all, Some(t)) == PairTokens(all) + [t];
  }

  lemma RenderThree(pre: seq<Pair>, win: seq<Pair>, post: seq<Pair>, sep: char)
    ensures Render(pre + win + post, sep) == Render(pre, sep) + Render(win, sep) + Render(post, sep)
  {
    RenderAppend(pre, win, sep);
    RenderAppend(pre + win, post, sep);
  }

  /** The growth-free suffix: empty before the closing text when no pair follows the
      window, otherwise the later pairs joined, which start with a year digit. */
  lemma SuffixNoGrowth(post: seq<Pair>, sep: char)
    requires CleanPairs(post, sep) && GoodSeparator(sep) && post != []
    ensures var s := TrimLast(Render(post, sep), sep);
            s != [] && s[0] != ')' && s + [sep] == Render(post, sep)
  {
    var jp := Join(PairTokens(post), sep);
    JoinPairTokensLast(post, sep);
    JoinedPairs(post, sep);
    assert CleanPair(post[0], sep);
    assert TokenChar(post[0].yearText[0], sep);
  }

  lemma SuffixGrowth(post: seq<Pair>, t: string, sep: char)
    requires CleanPairs(post, sep) && CleanToken(t, sep)
    ensures var s := TrimLast(Render(post, sep) + t, sep);
            s == Render(post, sep) + t && s != [] && s[0] != ')'
  {
    var rest := Render(post, sep) + t;
    assert rest[|rest| - 1] == t[|t| - 1];
    assert TokenChar(t[|t| - 1], sep);
    if post != [] {
      assert CleanPair(post[0], sep);
      RenderFirst(post, sep);
      assert rest[0] == post[0].yearText[0];
      assert TokenChar(post[0].yearText[0], sep);
    } else {
      assert rest == t;
      assert TokenChar(t[0], sep);
    }
  }

  lemma SpliceNoGrowth(pre: seq<Pair>, win: seq<Pair>, post: seq<Pair>, trailer: string, sep: char)
    requires CleanPairs(pre, sep) && CleanPairs(win, sep) && CleanPairs(post, sep) && GoodSeparator(sep)
    requires win != [] && trailer != [] && trailer[0] == ')'
    ensures var prefix := TrimLast("Interp(" + Render(pre, sep), sep);
            var suffix := TrimLast(Render(post, sep), sep) + trailer;
            prefix != [] && suffix != []
            && Splice(prefix, Render(win, sep), suffix, sep) == Expression(pre + win + post, None, trailer, sep)
  {
    var prefix := TrimLast("Interp(" + Render(pre, sep), sep);
    var rpre, rw, rpost := Render(pre, sep), Render(win, sep), Render(post, sep);
    var all := pre + win + post;
    var assembled := "Interp(" + rpre + rw;
    AssembledText(pre, rw, sep);
    RenderThree(pre, win, post, sep);
    InnerNoGrowth(all, sep);
    var inner := Join(Tokens(all, None), sep);
    assert Expression(all, None, trailer, sep) == "Interp(" + inner + trailer;
    if post != [] {
      SuffixNoGrowth(post, sep);
    }
    SpliceText(prefix, rpre, rw, rpost, inner, trailer, sep);
  }

  /** The string algebra of the growth-free splice, over plain text. */
  lemma SpliceText(prefix: string, rpre: string, rw: string, rpost: string, inner: string,
                   trailer: string, sep: char)
    requires prefix != [] && trailer != [] && trailer[0] == ')'
    requires (if prefix[|prefix| - 1] == '(' then prefix + rw else prefix + [sep] + rw) == "Interp(" + rpre + rw
    requires inner + [sep] == rpre + rw + rpost
    requires rpost != [] ==> TrimLast(rpost, sep) != [] && TrimLast(rpost, sep)[0] != ')'
                             && TrimLast(rpost, sep) + [sep] == rpost
    ensures Splice(prefix, rw, TrimLast(rpost, sep) + trailer, sep) == "Interp(" + inner + trailer
  {
    if rpost == [] {
      SpliceTextBare(prefix, rpre, rw, inner, trailer, sep);
    } else {
      SpliceTextPost(prefix, rpre, rw, rpost, inner, trailer, sep);
    }
  }

  lemma SpliceTextBare(prefix: string, rpre: string, rw: string, inner: string, trailer: string, sep: char)
    requires prefix != [] && trailer != [] && trailer[0] == ')'
    requires (if prefix[|prefix| - 1] == '(' then prefix + rw else prefix + [sep] + rw) == "Interp(" + rpre + rw
    requires inner + [sep] == rpre + rw
    ensures Splice(prefix, rw, TrimLast([], sep) + trailer, sep) == "Interp(" + inner + trailer
  {
    assert TrimLast([], sep) + trailer == trailer;
    SpliceBare("Interp(", prefix, rpre, rw, inner, trailer, sep);
  }

  lemma SpliceBare(head: string, prefix: string, rpre: string, rw: string, inner: string, trailer: string, sep: char)
    requires prefix != [] && trailer != [] && trailer[0] == ')'
    requires (if prefix[|prefix| - 1] == '(' then prefix + rw else prefix + [sep] + rw) == head + rpre + rw
    requires inner + [sep] == rpre + rw
    ensures Splice(prefix, rw, trailer, sep) == head + inner + trailer
  {
    var assembled := head + rpre + rw;
    SpliceWith(prefix, rw, trailer, sep, assembled);
    assert assembled == head + (rpre + rw);
    DropSeparator(head, rpre + rw, inner, sep);
  }

  lemma SpliceTextPost(prefix: string, rpre: string, rw: string, rpost: string, inner: string,
                       trailer: string, sep: char)
    requires prefix != [] && trailer != [] && trailer[0] == ')'
    requires (if prefix[|prefix| - 1] == '(' then prefix + rw else prefix + [sep] + rw) == "Interp(" + rpre + rw
    requires inner + [sep] == rpre + rw + rpost
    requires rpost != [] && TrimLast(rpost, sep) != [] && TrimLast(rpost, sep)[0] != ')'
    requires TrimLast(rpost, sep) + [sep] == rpost
    ensures Splice(prefix, rw, TrimLast(rpost, sep) + trailer, sep) == "Interp(" + inner + trailer
  {
    var assembled := "Interp(" + rpre + rw;
    var jp := TrimLast(rpost, sep);
    var suffix := jp + trailer;
    SpliceWith(prefix, rw, suffix, sep, assembled);
    assert suffix[0] == jp[0];
    assert inner + [sep] == (rpre + rw + jp) + [sep];
    SameBeforeSeparator(inner, rpre + rw + jp, sep);
    Regroup("Interp(", rpre, rw, jp, [], trailer);
    assert jp + [] == jp;
  }

  lemma SpliceGrowth(pre: seq<Pair>, win: seq<Pair>, post: seq<Pair>, t: string, trailer: string, sep: char)
    requires CleanPairs(pre, sep) && CleanPairs(win, sep) && CleanPairs(post, sep) && GoodSeparator(sep)
    requires CleanToken(t, sep)
    requires win != [] && trailer != [] && trailer[0] == ')'
    ensures var prefix := TrimLast("Interp(" + Render(pre, sep), sep);
            var suffix := TrimLast(Render(post, sep) + t, sep) + trailer;
            prefix != [] && suffix != []
            && Splice(prefix, Render(win, sep), suffix, sep) == Expression(pre + win + post, Some(t), trailer, sep)
  {
    var prefix := TrimLast("Interp(" + Render(pre, sep), sep);
    var rpre, rw, rpost := Render(pre, sep), Render(win, sep), Render(post, sep);
    var all := pre + win + post;
    var assembled := "Interp(" + rpre + rw;
    AssembledText(pre, rw, sep);
    RenderThree(pre, win, post, sep);
    InnerGrowth(all, t, sep);
    SuffixGrowth(post, t, sep);
    var suffix := rpost + t + trailer;
    assert suffix[0] == (rpost + t)[0];
    SpliceWith(prefix, rw, suffix, sep, assembled);
    assert Splice(prefix, rw, suffix, sep) == assembled + suffix;
    assert Expression(all, Some(t), trailer, sep) == "Interp(" + (rpre + rw + rpost + t) + trailer;
    Regroup("Interp(", rpre, rw, rpost, t, trailer);
  }

  lemma Regroup(a: string, b: string, c: string, d: string, e: string, f: string)
    ensures (a + b + c) + (d + e + f) == a + (b + c + d + e) + f
  {
  }

  lemma CleanHasNoSeparator(toks: seq<string>, sep: char)
    requires forall i :: 0 <= i < |toks| ==> CleanToken(toks[i], sep)
    ensures forall i :: 0 <= i < |toks| ==> sep !in toks[i]
  {
    forall i | 0 <= i < |toks| ensures sep !in toks[i] {
      assert CleanToken(toks[i], sep);
      forall k | 0 <= k < |toks[i]| ensures toks[i][k] != sep {
        assert TokenChar(toks[i][k], sep);
      }
    }
  }

  /** The earlier pairs of `pre + cur + post` are `pre` and the later ones are `post`. */
  lemma WindowSelection(pre: seq<Pair>, cur: seq<Pair>, post: seq<Pair>, startyear: int, endyear: int)
    requires startyear <= endyear
    requires forall k :: 0 <= k < |pre| ==> pre[k].year < startyear
    requires forall k :: 0 <= k < |cur| ==> startyear <= cur[k].year <= endyear
    requires forall k :: 0 <= k < |post| ==> post[k].year > endyear
    ensures Earlier(pre + cur + post, startyear) == pre
    ensures Later(pre + cur + post, endyear) == post
  {
    EarlierAppend(pre + cur, post, startyear);
    EarlierAppend(pre, cur, startyear);
    EarlierAll(pre, startyear);
    EarlierNone(cur, startyear);
    EarlierNone(post, startyear);
    LaterAppend(pre + cur, post, endyear);
    LaterAppend(pre, cur, endyear);
    LaterNone(pre, endyear);
    LaterNone(cur, endyear);
    LaterAll(post, endyear);
    assert pre + [] + [] == pre;
    assert [] + [] + post == post;
  }

  /** Splitting a clean expression keeps exactly the pairs outside the window: the prefix
      holds the earlier pairs, the suffix the later pairs, the growth rate and the closing
      text; splicing new window data between them gives the expression with the window's
      pairs replaced by the new ones and nothing else changed. */
  lemma SpliceReplacesWindow(pre: seq<Pair>, cur: seq<Pair>, post: seq<Pair>, g: Option<string>,
                             trailer: string, sep: char, startyear: int, endyear: int,
                             values: int -> string)
    requires startyear <= endyear
    requires GoodSeparator(sep) && trailer != [] && trailer[0] == ')'
    requires CleanPairs(pre, sep) && CleanPairs(cur, sep) && CleanPairs(post, sep) && CleanGrowth(g, sep)
    requires CleanPairs(WindowPairs(startyear, endyear, values), sep)
    requires forall k :: 0 <= k < |pre| ==> pre[k].year < startyear
    requires forall k :: 0 <= k < |cur| ==> startyear <= cur[k].year <= endyear
    requires forall k :: 0 <= k < |post| ==> post[k].year > endyear
    requires pre + cur + post != [] || g.Some?
    ensures var r := SplitSpec(Expression(pre + cur + post, g, trailer, sep), startyear, endyear, sep);
            r == Ok(Parts(TrimLast("Interp(" + Render(pre, sep), sep),
                          TrimLast(Render(post, sep) + GrowthText(g), sep) + trailer))
            && Splice(r.value.prefix, Render(WindowPairs(startyear, endyear, values), sep), r.value.suffix, sep)
               == Expression(pre + WindowPairs(startyear, endyear, values) + post, g, trailer, sep)
  {
    var all := pre + cur + post;
    var e := Expression(all, g, trailer, sep);
    CleanPairsAppend(pre, cur, sep);
    CleanPairsAppend(pre + cur, post, sep);
    var toks := Tokens(all, g);
    TokensClean(all, g, sep);
    JoinInnerChars(toks, sep);
    var inner := Join(toks, sep);
    assert e == "Interp(" + inner + trailer;
    InnerTextOf(inner, trailer);
    TerminationOf(inner, trailer);
    CleanHasNoSeparator(toks, sep);
    SplitOnJoin(toks, sep);
    ParseClean(all, g, sep);
    WindowSelection(pre, cur, post, startyear, endyear);
    SplitSpecSucceeds(e, startyear, endyear, sep, Walk(all, g));
    var win := WindowPairs(startyear, endyear, values);
    if g.Some? {
      SpliceGrowth(pre, win, post, g.value, trailer, sep);
    } else {
      assert Render(post, sep) + GrowthText(g) == Render(post, sep);
      SpliceNoGrowth(pre, win, post, trailer, sep);
    }
  }

  /** Splicing back the very window the expression already holds gives the expression
      back unchanged. */
  lemma RoundTrip(pre: seq<Pair>, post: seq<Pair>, g: Option<string>, trailer: string, sep: char,
                  startyear: int, endyear: int, values: int -> string)
    requires startyear <= endyear
    requires GoodSeparator(sep) && trailer != [] && trailer[0] == ')'
    requires CleanPairs(pre, sep) && CleanPairs(post, sep) && CleanGrowth(g, sep)
    requires CleanPairs(WindowPairs(startyear, endyear, values), sep)
    requires forall k :: 0 <= k < |pre| ==> pre[k].year < startyear
    requires forall k :: 0 <= k < |post| ==> post[k].year > endyear
    ensures var win := WindowPairs(startyear, endyear, values);
            var e := Expression(pre + win + post, g, trailer, sep);
            var r := SplitSpec(e, startyear, endyear, sep);
            r.Ok? && Splice(r.value.prefix, Render(win, sep), r.value.suffix, sep) == e
  {
    var win := WindowPairs(startyear, endyear, values);
    assert (pre + win + post)[|pre|] == win[0];
    SpliceReplacesWindow(pre, win, post, g, trailer, sep, startyear, endyear, values);
  }

  /** Pushing the same window data twice leaves the expression as the first push made it. */
  lemma PushIdempotent(pre: seq<Pair>, cur: seq<Pair>, post: seq<Pair>, g: Option<string>,
                       trailer: string, sep: char, startyear: int, endyear: int,
                       values: int -> string)
    requires startyear <= endyear
    requires GoodSeparator(sep) && trailer != [] && trailer[0] == ')'
    requires CleanPairs(pre, sep) && CleanPairs(cur, sep) && CleanPairs(post, sep) && CleanGrowth(g, sep)
    requires CleanPairs(WindowPairs(startyear, endyear, values), sep)
    requires forall k :: 0 <= k < |pre| ==> pre[k].year < startyear
    requires forall k :: 0 <= k < |cur| ==> startyear <= cur[k].year <= endyear
    requires forall k :: 0 <= k < |post| ==> post[k].year > endyear
    requires pre + cur + post != [] || g.Some?
    ensures var nd := Render(WindowPairs(startyear, endyear, values), sep);
            var r1 := SplitSpec(Expression(pre + cur + post, g, trailer, sep), startyear, endyear, sep);
            r1.Ok?
            && var e1 := Splice(r1.value.prefix, nd, r1.value.suffix, sep);
               var r2 := SplitSpec(e1, startyear, endyear, sep);
               r2 == r1 && Splice(r2.value.prefix, nd, r2.value.suffix, sep) == e1
  {
    var win := WindowPairs(startyear, endyear, values);
    SpliceReplacesWindow(pre, cur, post, g, trailer, sep, startyear, endyear, values);
    SpliceReplacesWindow(pre, win, post, g, trailer, sep, startyear, endyear, values);
  }
}
