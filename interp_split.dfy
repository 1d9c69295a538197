/** The Interp-expression splitter and splicer (`split_interp_ex` and the string assembly
    of `add_leap_data_to_weap_interp`). The same code stands three times in the repository,
    in utils/leap_weap.py, leap_weap_sub.py and wave_integration.py; this one model serves
    all three. */
module InterpSplit {
  import opened Results
  import opened PyText

  /** One (year, value) pair of an Interp expression, as the splitter read it: the year
      parsed by `int()`, and both tokens after `strip()`. */
  datatype Pair = Pair(year: int, yearText: string, valueText: string)

  /** `int()` raised ValueError on a token in a year position. */
  datatype SplitError = BadYear(token: string)

  /** `return_val`: the text before the window and the text after it. */
  datatype Parts = Parts(prefix: string, suffix: string)

  /** The pairs and the optional growth-rate token read from the token list. */
  datatype Walk = Walk(pairs: seq<Pair>, growth: Option<string>)

  /** `year sep value sep`, the text the splitter appends for one pair. */
  function Entry(p: Pair, sep: char): string {
    p.yearText + [sep] + p.valueText + [sep]
  }

  function Render(ps: seq<Pair>, sep: char): string {
    if ps == [] then [] else Entry(ps[0], sep) + Render(ps[1..], sep)
  }

  lemma {:induction false} RenderAppend(a: seq<Pair>, b: seq<Pair>, sep: char)
    ensures Render(a + b, sep) == Render(a, sep) + Render(b, sep)
  {
    if a == [] {
      assert a + b == b;
    } else {
      assert (a + b)[1..] == a[1..] + b;
      RenderAppend(a[1..], b, sep);
    }
  }

  /** The pairs whose year lies before the window, in input order. */
  function Earlier(ps: seq<Pair>, startyear: int): seq<Pair> {
    if ps == [] then []
    else (if ps[0].year < startyear then [ps[0]] else []) + Earlier(ps[1..], startyear)
  }

  /** The pairs whose year lies after the window, in input order. */
  function Later(ps: seq<Pair>, endyear: int): seq<Pair> {
    if ps == [] then []
    else (if ps[0].year > endyear then [ps[0]] else []) + Later(ps[1..], endyear)
  }

  /** Selecting the earlier pairs of a concatenation selects from each part in turn, so the
      selection keeps input order. */
  lemma {:induction false} EarlierAppend(a: seq<Pair>, b: seq<Pair>, startyear: int)
    ensures Earlier(a + b, startyear) == Earlier(a, startyear) + Earlier(b, startyear)
  {
    if a == [] {
      assert a + b == b;
    } else {
      assert (a + b)[1..] == a[1..] + b;
      EarlierAppend(a[1..], b, startyear);
    }
  }

  lemma {:induction false} LaterAppend(a: seq<Pair>, b: seq<Pair>, endyear: int)
    ensures Later(a + b, endyear) == Later(a, endyear) + Later(b, endyear)
  {
    if a == [] {
      assert a + b == b;
    } else {
      assert (a + b)[1..] == a[1..] + b;
      LaterAppend(a[1..], b, endyear);
    }
  }

  /** A pair is kept before the window exactly when it is one of the input pairs and its
      year is less than the start year. */
  lemma {:induction false} EarlierMembers(ps: seq<Pair>, startyear: int, p: Pair)
    ensures p in Earlier(ps, startyear) <==> p in ps && p.year < startyear
  {
    if ps != [] {
      EarlierMembers(ps[1..], startyear, p);
      assert ps == [ps[0]] + ps[1..];
    }
  }

  /** A pair is kept after the window exactly when it is one of the input pairs and its
      year is greater than the end year. */
  lemma {:induction false} LaterMembers(ps: seq<Pair>, endyear: int, p: Pair)
    ensures p in Later(ps, endyear) <==> p in ps && p.year > endyear
  {
    if ps != [] {
      LaterMembers(ps[1..], endyear, p);
      assert ps == [ps[0]] + ps[1..];
    }
  }

  /** The walk of `for i in range(0, len(exp_split), 2)`: a year and a value per step;
      a final unpaired token is the growth rate and ends the walk. */
  function ParsePairs(toks: seq<string>): Result<Walk, SplitError> {
    WalkWith(toks, Strip, ParseInt)
  }

  /** The same walk with `strip` read for `str.strip` and `parse` for `int`. */
  function WalkWith(toks: seq<string>, strip: string -> string, parse: string -> Option<int>): Result<Walk, SplitError>
    decreases |toks|
  {
    if |toks| == 0 then Ok(Walk([], None))
    else if |toks| == 1 then Ok(Walk([], Some(strip(toks[0]))))
    else
      match parse(strip(toks[0]))
      case None => Err(BadYear(strip(toks[0])))
      case Some(y) =>
        match WalkWith(toks[2..], strip, parse)
        case Err(e) => Err(e)
        case Ok(w) => Ok(Walk([Pair(y, strip(toks[0]), strip(toks[1]))] + w.pairs, w.growth))
  }

  /** A position that the walk reads as a year (not the final unpaired token). */
  predicate YearSlot(i: int, n: int) {
    0 <= i && i + 1 < n && i % 2 == 0
  }

  function Prepend(done: seq<Pair>, r: Result<Walk, SplitError>): Result<Walk, SplitError> {
    match r
    case Err(e) => Err(e)
    case Ok(w) => Ok(Walk(done + w.pairs, w.growth))
  }

  function GrowthText(g: Option<string>): string {
    match g
    case None => ""
    case Some(t) => t
  }

  /** `interp_termination`: from the first `)` to the end; with no `)`, `find` gives -1 and
      the slice `exp[-(len(exp)+1):]` is the whole expression. */
  function Termination(exp: string): string {
    var k := Find(exp, ')');
    if k >= 0 then exp[k..] else exp
  }

  /** The token text: lower-cased, every `interp(` removed, cut at the first `)`; with no
      `)` the slice `exp[0:-1]` drops the last character. */
  function InnerText(exp: string): string {
    var t := RemoveInterpOpen(Lower(exp));
    var k := Find(t, ')');
    if k >= 0 then t[..k] else if t == [] then [] else t[..|t| - 1]
  }

  predicate EndsWith(s: string, t: string) {
    |t| <= |s| && s[|s| - |t|..] == t
  }

  /** One trailing separator trimmed. */
  function TrimLast(s: string, sep: char): string {
    if s != [] && s[|s| - 1] == sep then s[..|s| - 1] else s
  }

  /** What `split_interp_ex` returns, or the error it raises. */
  function SplitSpec(exp: string, startyear: int, endyear: int, sep: char): (r: Result<Parts, SplitError>)
    ensures r.Ok? ==> |r.value.prefix| >= 6 && r.value.prefix[..6] == "Interp"
    ensures r.Ok? ==> EndsWith(r.value.suffix, Termination(exp))
    ensures r.Ok? && exp != [] ==> r.value.suffix != []
  {
    match ParsePairs(SplitOn(InnerText(exp), sep))
    case Err(e) => Err(e)
    case Ok(w) =>
      Ok(Parts(TrimLast("Interp(" + Render(Earlier(w.pairs, startyear), sep), sep),
               TrimLast(Render(Later(w.pairs, endyear), sep) + GrowthText(w.growth), sep) + Termination(exp)))
  }

  lemma WalkStep(toks: seq<string>, i: nat, done: seq<Pair>, p: Pair)
    requires i + 1 < |toks|
    requires ParseInt(Strip(toks[i])) == Some(p.year)
    requires p == Pair(p.year, Strip(toks[i]), Strip(toks[i + 1]))
    ensures Prepend(done, ParsePairs(toks[i..])) == Prepend(done + [p], ParsePairs(toks[i + 2..]))
  {
    assert toks[i..][2..] == toks[i + 2..];
    match ParsePairs(toks[i + 2..]) {
      case Err(_) =>
      case Ok(w) => assert done + ([p] + w.pairs) == done + [p] + w.pairs;
    }
  }

  lemma WalkGrowth(toks: seq<string>, i: nat, done: seq<Pair>)
    requires i == |toks| - 1
    ensures Prepend(done, ParsePairs(toks[i..])) == Ok(Walk(done, Some(Strip(toks[i]))))
  {
    assert toks[i..] == [toks[i]];
    assert done + [] == done;
  }

  lemma WalkEnd(toks: seq<string>, i: nat, done: seq<Pair>)
    requires i == |toks|
    ensures Prepend(done, ParsePairs(toks[i..])) == Ok(Walk(done, None))
  {
    assert toks[i..] == [];
    assert done + [] == done;
  }

  lemma WalkFails(toks: seq<string>, i: nat, done: seq<Pair>)
    requires i + 1 < |toks| && ParseInt(Strip(toks[i])) == None
    ensures Prepend(done, ParsePairs(toks[i..])) == Err(BadYear(Strip(toks[i])))
  {
    assert toks[i..][0] == toks[i];
  }

  lemma SplitSpecFails(exp: string, startyear: int, endyear: int, sep: char, e: SplitError)
    requires ParsePairs(SplitOn(InnerText(exp), sep)) == Err(e)
    ensures SplitSpec(exp, startyear, endyear, sep) == Err(e)
  {
  }

  lemma SplitSpecSucceeds(exp: string, startyear: int, endyear: int, sep: char, w: Walk)
    requires ParsePairs(SplitOn(InnerText(exp), sep)) == Ok(w)
    ensures SplitSpec(exp, startyear, endyear, sep)
         == Ok(Parts(TrimLast("Interp(" + Render(Earlier(w.pairs, startyear), sep), sep),
                     TrimLast(Render(Later(w.pairs, endyear), sep) + GrowthText(w.growth), sep) + Termination(exp)))
  {
  }

  lemma BeforeStep(done: seq<Pair>, p: Pair, startyear: int, sep: char, before: string)
    requires before == "Interp(" + Render(Earlier(done, startyear), sep)
    ensures (if p.year < startyear then before + Entry(p, sep) else before)
         == "Interp(" + Render(Earlier(done + [p], startyear), sep)
  {
    RenderOne(p, sep);
    EarlierAppend(done, [p], startyear);
    assert [p][1..] == [];
    assert Earlier([p], startyear) == (if p.year < startyear then [p] else []);
    RenderAppend(Earlier(done, startyear), Earlier([p], startyear), sep);
  }

  lemma AfterStep(done: seq<Pair>, p: Pair, endyear: int, sep: char, after: string)
    requires after == Render(Later(done, endyear), sep)
    ensures (if p.year > endyear then after + Entry(p, sep) else after)
         == Render(Later(done + [p], endyear), sep)
  {
    RenderOne(p, sep);
    LaterAppend(done, [p], endyear);
    assert [p][1..] == [];
    assert Later([p], endyear) == (if p.year > endyear then [p] else []);
    RenderAppend(Later(done, endyear), Later([p], endyear), sep);
  }

  lemma RenderOne(p: Pair, sep: char)
    ensures Render([p], sep) == Entry(p, sep)
  {
    assert [p][1..] == [];
    assert Render([p], sep) == Entry(p, sep) + Render([], sep);
  }

  /** `split_interp_ex(exp, startyear, endyear, listseparator)`. */
  method SplitInterpEx(exp: string, startyear: int, endyear: int, listseparator: char)
    returns (r: Result<Parts, SplitError>)
    ensures r == SplitSpec(exp, startyear, endyear, listseparator)
  {
    var sep := listseparator;
    var before := "Interp(";
    var after := "";
    var termination := Termination(exp);
    var toks := SplitOn(InnerText(exp), sep);
    ghost var done: seq<Pair> := [];
    var growth: Option<string> := None;
    var i := 0;
    assert toks[i..] == toks;
    match ParsePairs(toks) {
      case Err(_) =>
      case Ok(w) => assert done + w.pairs == w.pairs;
    }
    while i < |toks|
      invariant 0 <= i <= |toks|
      invariant growth == None
      invariant ParsePairs(toks) == Prepend(done, ParsePairs(toks[i..]))
      invariant before == "Interp(" + Render(Earlier(done, startyear), sep)
      invariant after == Render(Later(done, endyear), sep)
    {
      if i == |toks| - 1 {
        // the final, optional growth rate parameter
        var g := Strip(toks[i]);
        after := after + g;
        growth := Some(g);
        WalkGrowth(toks, i, done);
        assert after == Render(Later(done, endyear), sep) + GrowthText(growth);
        break;
      }
      var yearText := Strip(toks[i]);
      var valueText := Strip(toks[i + 1]);
      var year := ParseInt(yearText);
      if year.None? {
        WalkFails(toks, i, done);
        SplitSpecFails(exp, startyear, endyear, sep, BadYear(yearText));
        return Err(BadYear(yearText));
      }
      var p := Pair(year.value, yearText, valueText);
      WalkStep(toks, i, done, p);
      BeforeStep(done, p, startyear, sep, before);
      AfterStep(done, p, endyear, sep, after);
      if p.year < startyear {
        before := before + Entry(p, sep);
      }
      if p.year > endyear {
        after := after + Entry(p, sep);
      }
      done := done + [p];
      i := i + 2;
    }
    if growth == None {
      WalkEnd(toks, i, done);
      assert after == Render(Later(done, endyear), sep) + GrowthText(growth);
    }
    ghost var w := Walk(done, growth);
    assert ParsePairs(SplitOn(InnerText(exp), sep)) == Ok(w);
    assert before == "Interp(" + Render(Earlier(w.pairs, startyear), sep);
    assert after == Render(Later(w.pairs, endyear), sep) + GrowthText(w.growth);
    SplitSpecSucceeds(exp, startyear, endyear, sep, w);
    var parts := TrimSeparators(before, after, termination, sep);
    r := Ok(parts);
  }

  /** The end of `split_interp_ex`: one trailing separator is trimmed from each part and the
      termination is appended to the second. */
  method TrimSeparators(before: string, after: string, termination: string, sep: char)
    returns (parts: Parts)
    requires before != []
    ensures parts == Parts(TrimLast(before, sep), TrimLast(after, sep) + termination)
  {
    var prefix, suffix := before, after;
    if prefix[|prefix| - 1] == sep {
      prefix := prefix[..|prefix| - 1];
    }
    if |suffix| > 0 {
      if suffix[|suffix| - 1] == sep {
        suffix := suffix[..|suffix| - 1];
        suffix := suffix + termination;
      } else {
        suffix := suffix + termination;
      }
    } else {
      suffix := suffix + termination;
    }
    parts := Parts(prefix, suffix);
  }

  /** The reassembly in `add_leap_data_to_weap_interp`: a separator goes between prefix and
      new data unless the prefix ends in `(`, and the new data's last character is dropped
      when the suffix starts with `)`. */
  function Splice(prefix: string, newData: string, suffix: string, sep: char): string
    requires prefix != [] && suffix != []
  {
    var assembled := if prefix[|prefix| - 1] == '(' then prefix + newData else prefix + [sep] + newData;
    if suffix[0] == ')' then assembled[..|assembled| - 1] + suffix else assembled + suffix
  }

  /** The window's new pairs: one per year from the start year to the end year, ascending,
      the year written by `str(y)` and the value text supplied by the caller. */
  function WindowPairs(startyear: int, endyear: int, values: int -> string): (ps: seq<Pair>)
    ensures |ps| == if endyear >= startyear then endyear - startyear + 1 else 0
    ensures forall k :: 0 <= k < |ps| ==> ps[k].year == startyear + k
  {
    seq(if endyear >= startyear then endyear - startyear + 1 else 0,
        k => Pair(startyear + k, IntToStr(startyear + k), values(startyear + k)))
  }

  /** The `new_data` loop of `add_leap_data_to_weap_interp`. */
  method BuildNewData(startyear: int, endyear: int, listseparator: char, values: int -> string)
    returns (newData: string)
    ensures newData == Render(WindowPairs(startyear, endyear, values), listseparator)
  {
    newData := "";
    var y := startyear;
    while y < endyear + 1
      invariant y == startyear || startyear <= y <= endyear + 1
      invariant newData == Render(WindowPairs(startyear, y - 1, values), listseparator)
    {
      WindowStep(startyear, y, values, listseparator);
      newData := newData + (IntToStr(y) + [listseparator] + values(y) + [listseparator]);
      y := y + 1;
    }
  }

  /** One more year renders one more entry. */
  lemma WindowStep(startyear: int, y: int, values: int -> string, sep: char)
    requires startyear <= y
    ensures Render(WindowPairs(startyear, y, values), sep)
         == Render(WindowPairs(startyear, y - 1, values), sep) + (IntToStr(y) + [sep] + values(y) + [sep])
  {
    var p := Pair(y, IntToStr(y), values(y));
    assert WindowPairs(startyear, y, values) == WindowPairs(startyear, y - 1, values) + [p];
    RenderAppend(WindowPairs(startyear, y - 1, values), [p], sep);
    RenderOne(p, sep);
  }
}
