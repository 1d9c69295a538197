/** What the splitter promises about any expression: how the token walk reads pairs and
    the growth rate, when it fails, and where the kept text comes from. */
module InterpLaws {
  import opened Results
  import opened PyText
  import opened InterpSplit

  /** The walk reads `|toks| / 2` pairs, each from the stripped tokens at positions `2j` and
      `2j + 1`, the year parsed by `int()`; a growth rate is present exactly when the token
      count is odd, and it is the stripped last token. */
  lemma ParsePairsShape(toks: seq<string>)
    requires ParsePairs(toks).Ok?
    ensures |ParsePairs(toks).value.pairs| == |toks| / 2
    ensures ParsePairs(toks).value.growth.Some? <==> |toks| % 2 == 1
    ensures |toks| % 2 == 1 ==> ParsePairs(toks).value.growth == Some(Strip(toks[|toks| - 1]))
    ensures forall j :: 0 <= j < |toks| / 2 ==>
              ParsePairs(toks).value.pairs[j].yearText == Strip(toks[2 * j])
              && ParsePairs(toks).value.pairs[j].valueText == Strip(toks[2 * j + 1])
              && ParseInt(Strip(toks[2 * j])) == Some(ParsePairs(toks).value.pairs[j].year)
  {
    WalkCount(toks, Strip, ParseInt);
    forall j | 0 <= j < |toks| / 2
      ensures ParsePairs(toks).value.pairs[j].yearText == Strip(toks[2 * j])
      ensures ParsePairs(toks).value.pairs[j].valueText == Strip(toks[2 * j + 1])
      ensures ParseInt(Strip(toks[2 * j])) == Some(ParsePairs(toks).value.pairs[j].year)
    {
      WalkAt(toks, Strip, ParseInt, j);
    }
  }

  /** The walk reads one pair per two tokens and keeps an odd last token as the growth rate. */
  lemma {:induction false} WalkCount(toks: seq<string>, strip: string -> string, parse: string -> Option<int>)
    requires WalkWith(toks, strip, parse).Ok?
    ensures |WalkWith(toks, strip, parse).value.pairs| == |toks| / 2
    ensures WalkWith(toks, strip, parse).value.growth.Some? <==> |toks| % 2 == 1
    ensures |toks| % 2 == 1 ==> WalkWith(toks, strip, parse).value.growth == Some(strip(toks[|toks| - 1]))
    decreases |toks|
  {
    if |toks| >= 2 {
      var rest := toks[2..];
      WalkCount(rest, strip, parse);
      if |toks| % 2 == 1 {
        assert rest[|rest| - 1] == toks[|toks| - 1];
      }
    }
  }

  /** The `j`-th pair comes from the tokens at `2j` and `2j + 1`. */
  lemma {:induction false} WalkAt(toks: seq<string>, strip: string -> string, parse: string -> Option<int>, j: nat)
    requires WalkWith(toks, strip, parse).Ok? && 2 * j + 1 < |toks|
    ensures j < |WalkWith(toks, strip, parse).value.pairs|
    ensures WalkWith(toks, strip, parse).value.pairs[j].yearText == strip(toks[2 * j])
    ensures WalkWith(toks, strip, parse).value.pairs[j].valueText == strip(toks[2 * j + 1])
    ensures parse(strip(toks[2 * j])) == Some(WalkWith(toks, strip, parse).value.pairs[j].year)
    decreases j
  {
    if j > 0 {
      var rest := toks[2..];
      WalkAt(rest, strip, parse, j - 1);
      assert rest[2 * (j - 1)] == toks[2 * j];
      assert rest[2 * (j - 1) + 1] == toks[2 * j + 1];
    }
  }

  /** Position `i` of the token list is read as a year and is not an integer. */
  predicate BadYearAt(toks: seq<string>, i: int) {
    BadYearWith(toks, i, Strip, ParseInt)
  }

  predicate BadYearWith(toks: seq<string>, i: int, strip: string -> string, parse: string -> Option<int>) {
    YearSlot(i, |toks|) && parse(strip(toks[i])).None?
  }

  /** The walk fails exactly when some token it reads as a year is not an integer. */
  lemma ParsePairsFails(toks: seq<string>)
    ensures ParsePairs(toks).Err? <==> exists i :: BadYearAt(toks, i)
  {
    WalkFails(toks, Strip, ParseInt);
    if ParsePairs(toks).Err? {
      var i :| BadYearWith(toks, i, Strip, ParseInt);
      assert BadYearAt(toks, i);
    }
  }

  lemma {:induction false} WalkFails(toks: seq<string>, strip: string -> string, parse: string -> Option<int>)
    ensures WalkWith(toks, strip, parse).Err? <==> exists i :: BadYearWith(toks, i, strip, parse)
    decreases |toks|
  {
    if |toks| >= 2 {
      var rest := toks[2..];
      WalkFails(rest, strip, parse);
      if parse(strip(toks[0])).Some? {
        assert WalkWith(toks, strip, parse).Err? <==> WalkWith(rest, strip, parse).Err?;
        if exists i :: BadYearWith(toks, i, strip, parse) {
          var i :| BadYearWith(toks, i, strip, parse);
          assert i != 0;
          assert rest[i - 2] == toks[i];
          assert BadYearWith(rest, i - 2, strip, parse);
        }
        if exists i :: BadYearWith(rest, i, strip, parse) {
          var i :| BadYearWith(rest, i, strip, parse);
          assert toks[i + 2] == rest[i];
          assert BadYearWith(toks, i + 2, strip, parse);
        }
      } else {
        assert BadYearWith(toks, 0, strip, parse);
      }
    }
  }

  /** The splitter raises ValueError exactly when a token in a year position of the
      expression's token list is not an integer. */
  lemma SplitFailsIff(exp: string, startyear: int, endyear: int, sep: char)
    ensures SplitSpec(exp, startyear, endyear, sep).Err?
        <==> exists i :: BadYearAt(SplitOn(InnerText(exp), sep), i)
  {
    var toks := SplitOn(InnerText(exp), sep);
    ParsePairsFails(toks);
    match ParsePairs(toks) {
      case Err(e) => SplitSpecFails(exp, startyear, endyear, sep, e);
      case Ok(w) => SplitSpecSucceeds(exp, startyear, endyear, sep, w);
    }
  }
}
