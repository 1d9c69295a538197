/** The Python string built-ins the coupling layer relies on (`str.lower`, `str.replace`,
    `str.find`, `str.split`, `str.strip`, `int()` and `str()` on integers), stated over
    `string` = `seq<char>`. */
module PyText {
  import opened Results

  /** `str.lower` on one character; only ASCII letters are modelled. */
  function LowerChar(c: char): char {
    if 'A' <= c <= 'Z' then (c as int + 32) as char else c
  }

  function Lower(s: string): (r: string)
    ensures |r| == |s|
    ensures forall i :: 0 <= i < |s| ==> r[i] == LowerChar(s[i])
  {
    seq(|s|, i requires 0 <= i < |s| => LowerChar(s[i]))
  }

  /** `s.replace("interp(", "")`: every non-overlapping occurrence, scanning left to right,
      is removed; text that only forms an occurrence after a removal is kept. */
  function RemoveInterpOpen(s: string): (r: string)
    ensures |r| <= |s|
    decreases |s|
  {
    if |s| >= 7 && s[..7] == "interp(" then RemoveInterpOpen(s[7..])
    else if s == [] then []
    else [s[0]] + RemoveInterpOpen(s[1..])
  }

  /** Text without `(` in front of text that starts with `)` holds no occurrence of
      `interp(`, so the removal leaves it untouched. */
  lemma {:induction false} RemoveInterpOpenSkips(a: string, b: string)
    requires '(' !in a
    requires b == [] || b[0] == ')'
    ensures RemoveInterpOpen(a + b) == a + RemoveInterpOpen(b)
  {
    if a == [] {
      assert a + b == b;
    } else {
      calc {
        RemoveInterpOpen(a + b);
        == { RemoveInterpOpenKeeps(a, b); }
        [a[0]] + RemoveInterpOpen(a[1..] + b);
        == { RemoveInterpOpenSkips(a[1..], b); }
        [a[0]] + (a[1..] + RemoveInterpOpen(b));
        == { assert a == [a[0]] + a[1..]; }
        a + RemoveInterpOpen(b);
      }
    }
  }

  /** Text without `(` in front of text that starts with `)` keeps its first character. */
  lemma RemoveInterpOpenKeeps(a: string, b: string)
    requires a != [] && '(' !in a
    requires b == [] || b[0] == ')'
    ensures RemoveInterpOpen(a + b) == [a[0]] + RemoveInterpOpen(a[1..] + b)
  {
    NoInterpOpenAtStart(a, b);
    assert (a + b)[1..] == a[1..] + b;
  }

  lemma NoInterpOpenAtStart(a: string, b: string)
    requires a != [] && '(' !in a
    requires b == [] || b[0] == ')'
    ensures !(|a + b| >= 7 && (a + b)[..7] == "interp(")
  {
    var s := a + b;
    var pat := "interp(";
    if |s| >= 7 {
      if |a| >= 7 {
        assert s[..7][6] == a[6] != '(' == pat[6];
      } else {
        assert s[..7][|a|] == b[0] == ')' != pat[|a|];
      }
    }
  }

  /** `s.find(c)`: the first index of `c`, or -1. */
  function Find(s: string, c: char): (k: int)
    ensures -1 <= k < |s|
    ensures k == -1 <==> c !in s
    ensures k >= 0 ==> s[k] == c && c !in s[..k]
  {
    if s == [] then -1
    else if s[0] == c then 0
    else
      var k := Find(s[1..], c);
      if k < 0 then -1 else k + 1
  }

  lemma FindAfter(a: string, c: char, b: string)
    requires c !in a
    ensures Find(a + [c] + b, c) == |a|
  {
    var s := a + [c] + b;
    assert s[|a|] == c;
    assert s[..|a|] == a;
  }

  /** `sep.join(parts)` for a one-character separator. */
  function Join(parts: seq<string>, c: char): string
    requires |parts| >= 1
  {
    if |parts| == 1 then parts[0] else parts[0] + [c] + Join(parts[1..], c)
  }

  /** `s.split(c)` for a one-character separator: never empty, no part holds the
      separator, and joining the parts gives `s` back. */
  function SplitOn(s: string, c: char): (parts: seq<string>)
    ensures |parts| >= 1
    ensures forall i :: 0 <= i < |parts| ==> c !in parts[i]
    ensures Join(parts, c) == s
    decreases |s|
  {
    var k := Find(s, c);
    if k < 0 then [s]
    else
      var rest := SplitOn(s[k + 1..], c);
      var parts := [s[..k]] + rest;
      assert parts[1..] == rest;
      assert Join(parts, c) == s[..k] + [c] + Join(rest, c);
      assert s == s[..k] + [c] + s[k + 1..];
      parts
  }

  /** Splitting what `Join` built gives the parts back when none holds the separator. */
  lemma {:induction false} SplitOnJoin(parts: seq<string>, c: char)
    requires |parts| >= 1
    requires forall i :: 0 <= i < |parts| ==> c !in parts[i]
    ensures SplitOn(Join(parts, c), c) == parts
  {
    if |parts| > 1 {
      var rest := Join(parts[1..], c);
      FindAfter(parts[0], c, rest);
      var s := parts[0] + [c] + rest;
      assert s[..|parts[0]|] == parts[0];
      assert s[|parts[0]| + 1..] == rest;
      SplitOnJoin(parts[1..], c);
    }
  }

  /** What `str.strip` treats as whitespace (the ASCII and Latin-1 part). */
  predicate IsSpace(c: char) {
    c == ' ' || 9 <= c as int <= 13 || 28 <= c as int <= 31 || c as int == 0x85 || c as int == 0xA0
  }

  predicate NoSpace(s: string) {
    forall i :: 0 <= i < |s| ==> !IsSpace(s[i])
  }

  function StripLeft(s: string): (r: string)
    ensures r != [] ==> !IsSpace(r[0])
    ensures |s| > 0 && !IsSpace(s[0]) ==> r == s
  {
    if s != [] && IsSpace(s[0]) then StripLeft(s[1..]) else s
  }

  function StripRight(s: string): (r: string)
    ensures r != [] ==> !IsSpace(r[|r| - 1])
    ensures |s| > 0 && !IsSpace(s[|s| - 1]) ==> r == s
    ensures |s| > 0 && !IsSpace(s[0]) && r != [] ==> r[0] == s[0]
  {
    if s != [] && IsSpace(s[|s| - 1]) then StripRight(s[..|s| - 1]) else s
  }

  /** `str.strip()`: no whitespace at either end, and text without whitespace is returned
      as it is. */
  function Strip(s: string): (r: string)
    ensures r != [] ==> !IsSpace(r[0]) && !IsSpace(r[|r| - 1])
    ensures NoSpace(s) ==> r == s
  {
    StripRight(StripLeft(s))
  }

  /** Stripping only removes characters: what is left is a slice of `s`. */
  lemma StripSlice(s: string)
    ensures exists i, j :: 0 <= i <= j <= |s| && Strip(s) == s[i..j]
  {
    StripLeftSlice(s);
    var i :| 0 <= i <= |s| && StripLeft(s) == s[i..];
    StripRightSlice(s[i..]);
    var j :| 0 <= j <= |s[i..]| && StripRight(s[i..]) == s[i..][..j];
    assert s[i..][..j] == s[i..i + j];
  }

  lemma {:induction false} StripLeftSlice(s: string)
    ensures exists i :: 0 <= i <= |s| && StripLeft(s) == s[i..]
    decreases |s|
  {
    if s != [] && IsSpace(s[0]) {
      StripLeftSlice(s[1..]);
      var i :| 0 <= i <= |s[1..]| && StripLeft(s[1..]) == s[1..][i..];
      assert s[1..][i..] == s[i + 1..];
    } else {
      assert StripLeft(s) == s[0..];
    }
  }

  lemma {:induction false} StripRightSlice(s: string)
    ensures exists j :: 0 <= j <= |s| && StripRight(s) == s[..j]
    decreases |s|
  {
    if s != [] && IsSpace(s[|s| - 1]) {
      StripRightSlice(s[..|s| - 1]);
      var j :| 0 <= j <= |s| - 1 && StripRight(s[..|s| - 1]) == s[..|s| - 1][..j];
      assert s[..|s| - 1][..j] == s[..j];
    } else {
      assert StripRight(s) == s[..|s|];
    }
  }

  /** Stripping keeps only characters of `s`. */
  lemma StripKeepsChars(s: string)
    ensures forall ch :: ch in Strip(s) ==> ch in s
  {
    StripSlice(s);
    var i, j :| 0 <= i <= j <= |s| && Strip(s) == s[i..j];
    forall ch | ch in Strip(s) ensures ch in s {
      var k :| 0 <= k < |s[i..j]| && s[i..j][k] == ch;
      assert s[i + k] == ch;
    }
  }

  predicate IsDigit(c: char) {
    '0' <= c <= '9'
  }

  predicate AllDigits(s: string) {
    forall i :: 0 <= i < |s| ==> IsDigit(s[i])
  }

  /** The value of a run of ASCII digits read left to right, or `None` when some character
      is not a digit; the empty text reads as 0. */
  function DigitsValue(s: string): Option<nat>
    decreases |s|
  {
    if s == [] then Some(0)
    else
      match DigitsValue(s[..|s| - 1])
      case None => None
      case Some(v) => if IsDigit(s[|s| - 1]) then Some(v * 10 + (s[|s| - 1] as int - '0' as int)) else None
  }

  /** Text has a digit value exactly when all of it is digits. */
  lemma {:induction false} DigitsValueAll(s: string)
    ensures DigitsValue(s).Some? <==> AllDigits(s)
    decreases |s|
  {
    if s != [] {
      var init := s[..|s| - 1];
      DigitsValueAll(init);
      assert forall i :: 0 <= i < |init| ==> init[i] == s[i];
    }
  }

  /** `int(s)` for text already stripped: an optional sign and at least one ASCII digit;
      anything else raises ValueError, here `None`. */
  function ParseInt(s: string): Option<int> {
    if |s| > 1 && (s[0] == '-' || s[0] == '+') && DigitsValue(s[1..]).Some? then
      var v: int := DigitsValue(s[1..]).value;
      Some(if s[0] == '-' then -v else v)
    else if |s| > 0 && DigitsValue(s).Some? then Some(DigitsValue(s).value)
    else None
  }

  function NatToStr(n: nat): (s: string)
    ensures |s| > 0 && AllDigits(s) && DigitsValue(s) == Some(n)
  {
    if n < 10 then [(n + '0' as int) as char]
    else
      var s := NatToStr(n / 10) + [(n % 10 + '0' as int) as char];
      assert s[..|s| - 1] == NatToStr(n / 10);
      s
  }

  /** `str(n)` for an integer. */
  function IntToStr(n: int): (s: string)
    ensures ParseInt(s) == Some(n)
    ensures |s| > 0 && NoSpace(s)
  {
    if n < 0 then
      var s := "-" + NatToStr(-n);
      assert s[1..] == NatToStr(-n);
      s
    else NatToStr(n)
  }

  /** `str(n)` holds only digits and a leading minus sign. */
  lemma IntToStrChars(n: int)
    ensures forall c :: c in IntToStr(n) ==> c == '-' || IsDigit(c)
  {
    if n < 0 {
      var d := NatToStr(-n);
      DigitsValueAll(d);
      assert IntToStr(n) == "-" + d;
      forall c | c in IntToStr(n) ensures c == '-' || IsDigit(c) {
        if c != '-' {
          var i :| 0 <= i < |d| && d[i] == c;
        }
      }
    } else {
      DigitsValueAll(NatToStr(n));
      forall c | c in IntToStr(n) ensures IsDigit(c) {
        var i :| 0 <= i < |IntToStr(n)| && IntToStr(n)[i] == c;
      }
    }
  }

  /** A Python number: an `int` or a `float`. Equal values print differently, `100` against
      `100.0`, so the kind is kept. */
  datatype PyNumber = PyInt(i: int) | PyFloat(f: real)

  function ValueOf(n: PyNumber): real {
    match n
    case PyInt(i) => i as real
    case PyFloat(f) => f
  }

  /** `a + b`: the sum is an `int` only when both operands are. */
  function Add(a: PyNumber, b: PyNumber): (r: PyNumber)
    ensures ValueOf(r) == ValueOf(a) + ValueOf(b)
    ensures r.PyInt? <==> a.PyInt? && b.PyInt?
  {
    if a.PyInt? && b.PyInt? then PyInt(a.i + b.i) else PyFloat(ValueOf(a) + ValueOf(b))
  }

  /** `str(n)`: an `int` in decimal digits, which `int()` reads back; a `float` by the
      supplied rendering. */
  function Str(n: PyNumber, show: real -> string): (s: string)
    ensures n.PyInt? ==> ParseInt(s) == Some(n.i) && NoSpace(s)
    ensures n.PyFloat? ==> s == show(n.f)
  {
    match n
    case PyInt(i) => IntToStr(i)
    case PyFloat(f) => show(f)
  }
}
