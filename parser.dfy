/** The line parser of HealthBuddy/tools/parser_tool.py: OCR text in, a map
    from lab-test key to the observation read from the last line that
    mentions the test. */
module Parser {
  import opened Text

  type TestKey = string

  /** The Low/High annotation printed on the report line itself. */
  datatype Flag = Unset | FlagLow | FlagHigh
  {
    /** The string the parser stores: "Low", "High" or "". */
    function Name(): string
    {
      match this
      case Unset => ""
      case FlagLow => "Low"
      case FlagHigh => "High"
    }
  }

  datatype Observation = Observation(value: real, unit: string, flag: Flag, referenceRange: Option<string>)

  /** The alias table, in the order the parser tries it. */
  const Tests: seq<(TestKey, seq<string>)> := [
    ("hemoglobin", ["hemoglobin", "hb"]),
    ("wbc", ["wbc", "white blood cell", "total leukocyte"]),
    ("platelets", ["platelet", "plt"]),
    ("bilirubin_total", ["bilirubin"]),
    ("sgot", ["sgot", "ast"]),
    ("sgpt", ["sgpt", "alt"]),
    ("creatinine", ["creatinine"]),
    ("urea", ["urea"]),
    ("tsh", ["tsh"]),
    ("t3", ["t3"]),
    ("t4", ["t4"]),
    ("vitamin_d", ["vit d", "vitamin d", "25-oh"]),
    ("vitamin_b12", ["b12", "vitamin b12"]),
    ("fbs", ["fasting", "fbs"]),
    ("ppbs", ["pp", "post prandial"]),
    ("hba1c", ["hba1c"]),
    ("fsh", ["fsh"]),
    ("lh", ["lh"]),
    ("prolactin", ["prolactin"]),
    ("amh", ["amh", "anti mullerian"])
  ]

  /** The unit alternatives, in the order the unit pattern lists them. */
  const Units: seq<string> := ["g/dl", "mg/dl", "ng/ml", "iu/l", "mlu/ml", "%", "/ul"]

  /** The test at index `i` is the first one in `table` with an alias in the line. */
  ghost predicate IsFirstMention(table: seq<(TestKey, seq<string>)>, lower: string, i: int)
  {
    0 <= i < |table| && MentionsAny(lower, table[i].1)
    && forall j :: 0 <= j < i ==> !MentionsAny(lower, table[j].1)
  }

  /** First match wins: the key of the first entry whose aliases occur in the line. */
  function FirstTest(table: seq<(TestKey, seq<string>)>, lower: string): (r: Option<TestKey>)
    ensures r.None? <==> forall i :: 0 <= i < |table| ==> !MentionsAny(lower, table[i].1)
    ensures r.Some? ==> exists i :: IsFirstMention(table, lower, i) && table[i].0 == r.value
  {
    if table == [] then None
    else if MentionsAny(lower, table[0].1) then
      assert IsFirstMention(table, lower, 0);
      Some(table[0].0)
    else
      var r := FirstTest(table[1..], lower);
      assert forall i :: 1 <= i < |table| ==> table[i] == table[1..][i - 1];
      assert r.Some? ==> exists i :: IsFirstMention(table, lower, i) && table[i].0 == r.value by {
        if r.Some? {
          var i :| IsFirstMention(table[1..], lower, i) && table[1..][i].0 == r.value;
          assert IsFirstMention(table, lower, i + 1);
        }
      }
      r
  }

  /** `detect_test`: walk the table in order and stop at the first test mentioned. */
  method DetectTest(table: seq<(TestKey, seq<string>)>, lower: string) returns (test: Option<TestKey>)
    ensures test == FirstTest(table, lower)
  {
    var i := 0;
    while i < |table|
      invariant 0 <= i <= |table|
      invariant FirstTest(table[i..], lower) == FirstTest(table, lower)
    {
      FirstTestStep(table, i, lower);
      if MentionsAny(lower, table[i].1) {
        return Some(table[i].0);
      }
      i := i + 1;
    }
    return None;
  }

  /** One step of the walk: the entry at `i` decides, or the walk goes on. */
  lemma FirstTestStep(table: seq<(TestKey, seq<string>)>, i: int, lower: string)
    requires 0 <= i < |table|
    ensures MentionsAny(lower, table[i].1) ==> FirstTest(table[i..], lower) == Some(table[i].0)
    ensures !MentionsAny(lower, table[i].1) ==> FirstTest(table[i..], lower) == FirstTest(table[i + 1..], lower)
  {
    assert table[i..][0] == table[i];
    assert table[i..][1..] == table[i + 1..];
  }

  // ---------------------------------------------------------------------
  // Number tokens: the pattern [0-9]+\.?[0-9]* applied left to right.

  predicate IsDigit(c: char)
  {
    '0' <= c <= '9'
  }

  ghost predicate AllDigits(s: string)
  {
    forall i :: 0 <= i < |s| ==> IsDigit(s[i])
  }

  /** A string the number pattern matches as a whole: digits, then at most
      one '.', then digits. */
  ghost predicate IsNumberToken(t: string)
  {
    exists d :: 1 <= d <= |t| && AllDigits(t[..d]) && (d == |t| || (t[d] == '.' && AllDigits(t[d + 1..])))
  }

  /** Length of the longest all-digit prefix. */
  function DigitRun(s: string): (n: nat)
    ensures n <= |s|
    ensures forall i :: 0 <= i < n ==> IsDigit(s[i])
    ensures n == |s| || !IsDigit(s[n])
  {
    if s != [] && IsDigit(s[0]) then 1 + DigitRun(s[1..]) else 0
  }

  /** Length of the greedy match of the number pattern at the start of `s`. */
  function TokenLength(s: string): (n: nat)
    requires s != [] && IsDigit(s[0])
    ensures 1 <= n <= |s|
  {
    var d := DigitRun(s);
    if d < |s| && s[d] == '.' then d + 1 + DigitRun(s[d + 1..]) else d
  }

  /** `re.findall(r"[0-9]+\.?[0-9]*", line)`. */
  function NumberTokens(s: string): seq<string>
    decreases |s|
  {
    if s == [] then []
    else if IsDigit(s[0]) then
      var n := TokenLength(s);
      [s[..n]] + NumberTokens(s[n..])
    else NumberTokens(s[1..])
  }

  lemma TokenAtStartWellFormed(s: string)
    requires s != [] && IsDigit(s[0])
    ensures IsNumberToken(s[..TokenLength(s)])
  {
    var d := DigitRun(s);
    var t := s[..TokenLength(s)];
    assert t[..d] == s[..d];
    if d < |s| && s[d] == '.' {
      var e := DigitRun(s[d + 1..]);
      assert t[d + 1..] == s[d + 1..][..e];
    }
    assert 1 <= d <= |t| && AllDigits(t[..d]) && (d == |t| || (t[d] == '.' && AllDigits(t[d + 1..])));
  }

  /** Every token the scanner returns matches the number pattern. */
  lemma {:induction false} TokensWellFormed(s: string)
    ensures forall k :: 0 <= k < |NumberTokens(s)| ==> IsNumberToken(NumberTokens(s)[k])
    decreases |s|
  {
    if s == [] {
    } else if IsDigit(s[0]) {
      TokenAtStartWellFormed(s);
      TokensWellFormed(s[TokenLength(s)..]);
    } else {
      TokensWellFormed(s[1..]);
    }
  }

  ghost predicate HasDigit(s: string)
  {
    exists i :: 0 <= i < |s| && IsDigit(s[i])
  }

  /** The scanner finds a token exactly when the line holds a digit. */
  lemma {:induction false} TokensEmptyIff(s: string)
    ensures NumberTokens(s) == [] <==> !HasDigit(s)
    decreases |s|
  {
    if s == [] {
    } else if IsDigit(s[0]) {
    } else {
      TokensEmptyIff(s[1..]);
      if HasDigit(s) {
        var i :| 0 <= i < |s| && IsDigit(s[i]);
        assert s[1..][i - 1] == s[i];
      }
      if HasDigit(s[1..]) {
        var i :| 0 <= i < |s[1..]| && IsDigit(s[1..][i]);
        assert s[i + 1] == s[1..][i];
      }
    }
  }

  /** The token ends where the pattern can take no further character. */
  ghost predicate MaximalIn(s: string, i: int, t: string)
  {
    0 <= i && i + |t| <= |s| && s[i..i + |t|] == t
    && (i + |t| == |s| || !IsNumberToken(t + [s[i + |t|]]))
  }

  lemma TokenAtStartMaximal(s: string)
    requires s != [] && IsDigit(s[0])
    ensures MaximalIn(s, 0, s[..TokenLength(s)])
  {
    var n := TokenLength(s);
    var t := s[..n];
    var d := DigitRun(s);
    if n < |s| {
      var u := t + [s[n]];
      assert |u| == n + 1 && u[n] == s[n] && forall i :: 0 <= i < n ==> u[i] == s[i];
      if d < |s| && s[d] == '.' {
        // t is digits '.' digits, and s[n] is not a digit
        var e := DigitRun(s[d + 1..]);
        assert n == d + 1 + e && !IsDigit(s[d + 1..][e]) && s[d + 1..][e] == s[n];
        forall d' | 1 <= d' <= |u|
          ensures !(AllDigits(u[..d']) && (d' == |u| || (u[d'] == '.' && AllDigits(u[d' + 1..]))))
        {
          if d' > d {
            assert u[..d'][d] == '.';
          } else if d' < d {
            assert IsDigit(u[d']);
          } else {
            assert u[d + 1..][e] == s[n];
          }
        }
      } else {
        // t is digits, and s[n] is neither a digit nor '.'
        assert n == d && !IsDigit(s[n]) && s[n] != '.';
        forall d' | 1 <= d' <= |u|
          ensures !(AllDigits(u[..d']) && (d' == |u| || (u[d'] == '.' && AllDigits(u[d' + 1..]))))
        {
          if d' == |u| {
            assert u[..d'][n] == s[n];
          } else if d' < n {
            assert IsDigit(u[d']);
          }
        }
      }
    }
  }

  lemma {:induction false} FirstTokenLeftmostMaximalAux(s: string, i: nat)
    requires i < |s| && IsDigit(s[i]) && forall j :: 0 <= j < i ==> !IsDigit(s[j])
    ensures var n := TokenLength(s[i..]);
            NumberTokens(s) == [s[i..][..n]] + NumberTokens(s[i..][n..])
    decreases i
  {
    if i > 0 {
      forall j | 0 <= j < i - 1 ensures !IsDigit(s[1..][j]) {
        assert s[1..][j] == s[j + 1];
      }
      FirstTokenLeftmostMaximalAux(s[1..], i - 1);
      assert s[1..][i - 1..] == s[i..];
    }
  }

  /** The scanner is leftmost-first and maximal: the first token starts at
      the first digit of the line and is as long as the pattern allows, and
      the remaining tokens are those of the text right after it. Applied
      again to that rest, this pins down every token, in particular the
      second and third that make the reference range. */
  lemma FirstTokenLeftmostMaximal(s: string, i: nat)
    requires i < |s| && IsDigit(s[i]) && forall j :: 0 <= j < i ==> !IsDigit(s[j])
    ensures NumberTokens(s) != [] && MaximalIn(s, i, NumberTokens(s)[0])
    ensures NumberTokens(s) == [NumberTokens(s)[0]] + NumberTokens(s[i + |NumberTokens(s)[0]|..])
  {
    FirstTokenLeftmostMaximalAux(s, i);
    var n := TokenLength(s[i..]);
    var t := s[i..][..n];
    assert NumberTokens(s)[0] == t;
    assert s[i..][n..] == s[i + n..];
    TokenAtStartMaximal(s[i..]);
    assert s[i..][..|t|] == s[i..i + |t|];
    if i + |t| < |s| {
      assert s[i..][|t|] == s[i + |t|];
    }
  }

  /** Digits in a test's name are numbers too: the tokens of "T3 1.2" are
      "3" and "1.2", so that line's value is 3. */
  lemma TestNameDigitsCount(line: string)
    requires line == "T3 1.2"
    ensures NumberTokens(line) == ["3", "1.2"]
  {
    var s1 := line[1..];
    assert s1 == "3" + " 1.2";
    DigitRunStops("3", " 1.2");
    assert TokenLength(s1) == 1;
    FirstTokenLeftmostMaximalAux(line, 1);
    assert s1[..1] == "3";
    var r := s1[1..];
    assert r == " 1.2";
    var s2 := r[1..];
    assert s2 == "1" + ".2";
    DigitRunStops("1", ".2");
    assert s2[2..] == "2" + "";
    DigitRunStops("2", "");
    assert TokenLength(s2) == 3;
    FirstTokenLeftmostMaximalAux(r, 1);
    assert s2[..3] == "1.2" && s2[3..] == [];
  }

  // ---------------------------------------------------------------------
  // float(token)

  function DigitValue(c: char): nat
  {
    if IsDigit(c) then c as nat - '0' as nat else 0
  }

  /** The integer a string of decimal digits denotes. */
  function DigitsValue(ds: string): nat
  {
    if ds == [] then 0 else DigitsValue(ds[..|ds| - 1]) * 10 + DigitValue(ds[|ds| - 1])
  }

  function Pow10(n: nat): (r: nat)
    ensures r >= 1
  {
    if n == 0 then 1 else 10 * Pow10(n - 1)
  }

  /** `float(token)` for a token of the number pattern, as an exact real. */
  function DecimalValue(t: string): (r: real)
    ensures r >= 0.0
  {
    var d := DigitRun(t);
    var whole := DigitsValue(t[..d]) as real;
    if d < |t| then whole + Fraction(DigitsValue(t[d + 1..]), |t| - d - 1) else whole
  }

  /** The value of `n` digits after the point that read as the integer `f`. */
  function Fraction(f: nat, n: nat): (r: real)
    ensures 0.0 <= r
  {
    f as real / Pow10(n) as real
  }

  lemma {:induction false} DigitRunStops(w: string, rest: string)
    requires AllDigits(w) && (rest == [] || !IsDigit(rest[0]))
    ensures DigitRun(w + rest) == |w|
    decreases |w|
  {
    if w == [] {
      assert w + rest == rest;
    } else {
      assert (w + rest)[1..] == w[1..] + rest;
      DigitRunStops(w[1..], rest);
    }
  }

  /** A token without a point reads as the integer its digits denote. */
  lemma DecimalWhole(w: string)
    requires w != [] && AllDigits(w)
    ensures DecimalValue(w) == DigitsValue(w) as real
  {
    DigitRunStops(w, []);
    assert w + [] == w;
    assert w[..|w|] == w;
  }

  /** A token `w.f` reads as `w` plus `f` tenths, hundredths and so on. */
  lemma DecimalPoint(w: string, f: string)
    requires w != [] && AllDigits(w) && AllDigits(f)
    ensures DecimalValue(w + "." + f) == DigitsValue(w) as real + DigitsValue(f) as real / Pow10(|f|) as real
  {
    var t := w + "." + f;
    DigitRunStops(w, "." + f);
    assert t == w + ("." + f);
    assert t[..|w|] == w;
    assert t[|w|] == '.';
    assert t[|w| + 1..] == f;
  }

  /** "11.2" reads as 11.2. */
  lemma DecimalExample(t: string)
    requires t == "11.2"
    ensures DecimalValue(t) == 11.2
  {
    assert t == "11" + "." + "2";
    DecimalPoint("11", "2");
  }

  /** A bare trailing point adds nothing: "12." reads as 12. */
  lemma DecimalTrailingPoint(t: string)
    requires t == "12."
    ensures DecimalValue(t) == 12.0
  {
    assert t == "12" + "." + "";
    DecimalPoint("12", "");
  }

  /** Leading zeros are ignored: "007.50" reads as 7.5. */
  lemma DecimalLeadingZeros(t: string)
    requires t == "007.50"
    ensures DecimalValue(t) == 7.5
  {
    assert t == "007" + "." + "50";
    DecimalPoint("007", "50");
  }

  // ---------------------------------------------------------------------
  // Unit and flag

  /** The first alternative, in list order, that is a prefix of `s`. */
  function FirstPrefix(alts: seq<string>, s: string): (r: Option<string>)
    ensures r.Some? ==> (exists k :: 0 <= k < |alts| && alts[k] == r.value && OccursAt(s, alts[k], 0)
                                     && forall j :: 0 <= j < k ==> !OccursAt(s, alts[j], 0))
    ensures r.None? <==> forall k :: 0 <= k < |alts| ==> !OccursAt(s, alts[k], 0)
  {
    if alts == [] then None
    else if |alts[0]| <= |s| && s[..|alts[0]|] == alts[0] then
      assert OccursAt(s, alts[0], 0);
      Some(alts[0])
    else
      var r := FirstPrefix(alts[1..], s);
      assert forall k :: 1 <= k < |alts| ==> alts[k] == alts[1..][k - 1];
      assert r.Some? ==> (exists k :: 0 <= k < |alts| && alts[k] == r.value && OccursAt(s, alts[k], 0)
                                       && forall j :: 0 <= j < k ==> !OccursAt(s, alts[j], 0)) by {
        if r.Some? {
          var k :| 0 <= k < |alts[1..]| && alts[1..][k] == r.value && OccursAt(s, alts[1..][k], 0)
                   && forall j :: 0 <= j < k ==> !OccursAt(s, alts[1..][j], 0);
          assert alts[k + 1] == r.value;
          assert !OccursAt(s, alts[0], 0);
        }
      }
      r
  }

  /** `re.search` with an alternation: the leftmost position where some
      alternative matches, and at that position the first alternative in
      list order. */
  function SearchAlternatives(alts: seq<string>, s: string): (r: Option<string>)
    ensures r.Some? ==> r.value in alts
    decreases |s|
  {
    if s == [] then None
    else match FirstPrefix(alts, s)
      case Some(u) => Some(u)
      case None => SearchAlternatives(alts, s[1..])
  }

  /** `detect_unit`: the matched unit, or "" when none occurs. */
  function DetectUnit(lower: string): (u: string)
    ensures u == "" || u in Units
  {
    match SearchAlternatives(Units, lower)
    case Some(u) => u
    case None => ""
  }

  /** No alternative is a prefix of `s` at any position before `i`. */
  ghost predicate NoMatchBefore(alts: seq<string>, s: string, i: int)
    requires 0 <= i <= |s|
  {
    forall j :: 0 <= j < i ==> FirstPrefix(alts, s[j..]).None?
  }

  lemma NoMatchBeforeShift(alts: seq<string>, s: string, i: int)
    requires s != [] && 0 <= i < |s| && FirstPrefix(alts, s).None? && NoMatchBefore(alts, s[1..], i)
    ensures NoMatchBefore(alts, s, i + 1)
  {
    forall j | 0 <= j < i + 1 ensures FirstPrefix(alts, s[j..]).None? {
      if j > 0 { assert s[1..][j - 1..] == s[j..]; } else { assert s[0..] == s; }
    }
  }

  /** The alternative found is matched at the leftmost position where any
      alternative matches. */
  lemma {:induction false} SearchLeftmost(alts: seq<string>, s: string)
    requires SearchAlternatives(alts, s).Some?
    ensures exists i :: 0 <= i < |s| && FirstPrefix(alts, s[i..]) == SearchAlternatives(alts, s)
                        && NoMatchBefore(alts, s, i)
    decreases |s|
  {
    var r := SearchAlternatives(alts, s);
    if FirstPrefix(alts, s).None? {
      SearchLeftmost(alts, s[1..]);
      var i :| 0 <= i < |s[1..]| && FirstPrefix(alts, s[1..][i..]) == r && NoMatchBefore(alts, s[1..], i);
      NoMatchBeforeShift(alts, s, i);
      assert s[1..][i..] == s[i + 1..];
    } else {
      assert s[0..] == s;
      assert NoMatchBefore(alts, s, 0);
    }
  }

  /** Nothing is found exactly when no non-empty alternative occurs in the text. */
  lemma {:induction false} SearchNoneIff(alts: seq<string>, s: string)
    requires forall k :: 0 <= k < |alts| ==> alts[k] != []
    ensures SearchAlternatives(alts, s).None? <==> forall k :: 0 <= k < |alts| ==> !Contains(s, alts[k])
    decreases |s|
  {
    if s == [] {
      forall k | 0 <= k < |alts| ensures !Contains(s, alts[k]) {
        assert |alts[k]| > 0;
      }
    } else {
      var r := FirstPrefix(alts, s);
      if r.Some? {
        var k :| 0 <= k < |alts| && alts[k] == r.value && OccursAt(s, alts[k], 0);
        ContainsIff(s, alts[k]);
      } else {
        SearchNoneIff(alts, s[1..]);
        forall k | 0 <= k < |alts|
          ensures Contains(s, alts[k]) == Contains(s[1..], alts[k])
        {
          assert !OccursAt(s, alts[k], 0);
        }
      }
    }
  }

  /** The unit is "" exactly when no unit occurs in the line; otherwise it is
      the unit listed first among those matching at the leftmost position. */
  lemma DetectUnitSpec(lower: string)
    ensures DetectUnit(lower) == "" <==> forall k :: 0 <= k < |Units| ==> !Contains(lower, Units[k])
    ensures DetectUnit(lower) != "" ==>
              exists i :: 0 <= i < |lower| && FirstPrefix(Units, lower[i..]) == Some(DetectUnit(lower))
                          && NoMatchBefore(Units, lower, i)
  {
    SearchNoneIff(Units, lower);
    if SearchAlternatives(Units, lower).Some? {
      SearchLeftmost(Units, lower);
    }
  }

  /** The report's own annotation: "low" anywhere wins over "high". */
  function FlagOf(lower: string): (f: Flag)
    ensures f == FlagLow <==> Contains(lower, "low")
    ensures f == FlagHigh <==> !Contains(lower, "low") && Contains(lower, "high")
  {
    if Contains(lower, "low") then FlagLow
    else if Contains(lower, "high") then FlagHigh
    else Unset
  }

  // ---------------------------------------------------------------------
  // One line, then the whole text

  /** `parse_line`: the detected test and its observation, or nothing. */
  function LineObservation(line: string): Option<(TestKey, Observation)>
  {
    var lower := Lower(line);
    match FirstTest(Tests, lower)
    case None => None
    case Some(test) =>
      var nums := NumberTokens(line);
      if |nums| == 0 then None
      else
        var range := if |nums| >= 3 then Some(nums[1] + " - " + nums[2]) else None;
        Some((test, Observation(DecimalValue(nums[0]), DetectUnit(lower), FlagOf(lower), range)))
  }

  method ParseLine(line: string) returns (r: Option<(TestKey, Observation)>)
    ensures r == LineObservation(line)
  {
    var lower := Lower(line);
    var test := DetectTest(Tests, lower);
    if test.None? {
      return None;
    }
    var nums := NumberTokens(line);
    if |nums| == 0 {
      return None;
    }
    var range := None;
    if |nums| >= 3 {
      range := Some(nums[1] + " - " + nums[2]);
    }
    r := Some((test.value, Observation(DecimalValue(nums[0]), DetectUnit(lower), FlagOf(lower), range)));
  }

  /** A line yields an observation exactly when a test is mentioned and it
      holds a digit; the observation carries the first number, the
      reference range from the second and third, the unit and the flag. */
  lemma LineObservationIff(line: string)
    ensures LineObservation(line).Some? <==>
              (exists i :: 0 <= i < |Tests| && MentionsAny(Lower(line), Tests[i].1)) && HasDigit(line)
    ensures LineObservation(line).Some? ==>
              var (k, o) := LineObservation(line).value;
              var nums := NumberTokens(line);
              && (exists i :: IsFirstMention(Tests, Lower(line), i) && Tests[i].0 == k)
              && o.value == DecimalValue(nums[0]) && IsNumberToken(nums[0])
              && (o.referenceRange.Some? <==> |nums| >= 3)
              && (o.referenceRange.Some? ==> o.referenceRange.value == nums[1] + " - " + nums[2])
              && o.unit == DetectUnit(Lower(line)) && (o.unit == "" || o.unit in Units)
              && o.flag == FlagOf(Lower(line))
  {
    TokensEmptyIff(line);
    TokensWellFormed(line);
  }

  /** A line that mentions no test, or holds no digit, yields nothing. */
  lemma NoObservation(line: string)
    requires (forall i :: 0 <= i < |Tests| ==> !MentionsAny(Lower(line), Tests[i].1)) || !HasDigit(line)
    ensures LineObservation(line) == None
  {
    LineObservationIff(line);
  }

  /** Fold observations into a map in order: a later entry for a key
      overwrites an earlier one. */
  function Collect(obs: seq<Option<(TestKey, Observation)>>): map<TestKey, Observation>
  {
    if obs == [] then map[]
    else
      var m := Collect(obs[..|obs| - 1]);
      match obs[|obs| - 1]
      case None => m
      case Some((k, o)) => m[k := o]
  }

  function Observations(lines: seq<string>): (r: seq<Option<(TestKey, Observation)>>)
    ensures |r| == |lines| && forall j :: 0 <= j < |lines| ==> r[j] == LineObservation(lines[j])
  {
    seq(|lines|, j requires 0 <= j < |lines| => LineObservation(lines[j]))
  }

  /** What `parse` returns for a text. */
  function ParseText(text: string): map<TestKey, Observation>
  {
    Collect(Observations(Split(text, '\n')))
  }

  /** `parse`: split on newlines and record every line in order. */
  method Parse(text: string) returns (structured: map<TestKey, Observation>)
    ensures structured == ParseText(text)
  {
    var lines := Split(text, '\n');
    structured := map[];
    for i := 0 to |lines|
      invariant structured == Collect(Observations(lines[..i]))
    {
      var r := ParseLine(lines[i]);
      CollectStep(lines, i, r);
      if r.Some? {
        structured := structured[r.value.0 := r.value.1];
      }
    }
    assert lines[..|lines|] == lines;
  }

  /** Parsing one more line records its observation, if any, over the earlier ones. */
  lemma CollectStep(lines: seq<string>, i: int, r: Option<(TestKey, Observation)>)
    requires 0 <= i < |lines| && r == LineObservation(lines[i])
    ensures r.None? ==> Collect(Observations(lines[..i + 1])) == Collect(Observations(lines[..i]))
    ensures r.Some? ==> Collect(Observations(lines[..i + 1])) == Collect(Observations(lines[..i]))[r.value.0 := r.value.1]
  {
    assert lines[..i + 1] == lines[..i] + [lines[i]];
    ObservationsSnoc(lines[..i], lines[i]);
    CollectSnoc(Observations(lines[..i]), r);
  }

  /** Recording one more line's outcome. */
  lemma CollectSnoc(obs: seq<Option<(TestKey, Observation)>>, e: Option<(TestKey, Observation)>)
    ensures e.None? ==> Collect(obs + [e]) == Collect(obs)
    ensures e.Some? ==> Collect(obs + [e]) == Collect(obs)[e.value.0 := e.value.1]
  {
    assert (obs + [e])[..|obs|] == obs;
  }

  lemma ObservationsSnoc(lines: seq<string>, line: string)
    ensures Observations(lines + [line]) == Observations(lines) + [LineObservation(line)]
  {
  }

  ghost predicate HasKey(e: Option<(TestKey, Observation)>, k: TestKey)
  {
    e.Some? && e.value.0 == k
  }

  /** Last entry wins: a key is present iff some entry carries it, and its
      observation is that of the last such entry. */
  lemma {:induction false} CollectLastWins(obs: seq<Option<(TestKey, Observation)>>, k: TestKey)
    ensures k in Collect(obs) <==> exists j :: 0 <= j < |obs| && HasKey(obs[j], k)
    ensures k in Collect(obs) ==>
              exists j :: 0 <= j < |obs| && obs[j] == Some((k, Collect(obs)[k]))
                          && forall j' :: j < j' < |obs| ==> !HasKey(obs[j'], k)
    decreases |obs|
  {
    if obs != [] {
      var n := |obs| - 1;
      var init := obs[..n];
      CollectLastWins(init, k);
      assert forall j :: 0 <= j < n ==> init[j] == obs[j];
      assert Collect(obs) == if obs[n].Some? then Collect(init)[obs[n].value.0 := obs[n].value.1] else Collect(init);
      if HasKey(obs[n], k) {
        assert obs[n] == Some((k, Collect(obs)[k]));
      } else if k in Collect(init) {
        var j :| 0 <= j < |init| && init[j] == Some((k, Collect(init)[k]))
                 && forall j' :: j < j' < |init| ==> !HasKey(init[j'], k);
        assert Collect(obs)[k] == Collect(init)[k];
        assert obs[j] == Some((k, Collect(obs)[k]));
      }
    }
  }

  /** Last line wins, for a whole text. */
  lemma ParseLastWins(text: string, k: TestKey)
    ensures var lines := Split(text, '\n');
            && (k in ParseText(text) <==> exists j :: 0 <= j < |lines| && HasKey(LineObservation(lines[j]), k))
            && (k in ParseText(text) ==>
                  exists j :: 0 <= j < |lines| && LineObservation(lines[j]) == Some((k, ParseText(text)[k]))
                              && forall j' :: j < j' < |lines| ==> !HasKey(LineObservation(lines[j']), k))
  {
    CollectLastWins(Observations(Split(text, '\n')), k);
  }

  function TableKeys(): set<TestKey>
  {
    set i | 0 <= i < |Tests| :: Tests[i].0
  }

  lemma LineKeyInTable(line: string)
    ensures LineObservation(line).Some? ==> LineObservation(line).value.0 in TableKeys()
  {
    var r := FirstTest(Tests, Lower(line));
    if r.Some? {
      var i :| IsFirstMention(Tests, Lower(line), i) && Tests[i].0 == r.value;
      assert r.value in TableKeys();
    }
  }

  /** Every key of the result is a key of the alias table. */
  lemma ParseKeysInTable(text: string)
    ensures ParseText(text).Keys <= TableKeys()
  {
    var lines := Split(text, '\n');
    forall k | k in ParseText(text) ensures k in TableKeys() {
      ParseLastWins(text, k);
      var j :| 0 <= j < |lines| && HasKey(LineObservation(lines[j]), k);
      LineKeyInTable(lines[j]);
    }
  }

  /** An empty text yields an empty map. */
  lemma ParseEmpty()
    ensures ParseText("") == map[]
  {
    assert Split("", '\n') == [""];
    TokensEmptyIff("");
    assert LineObservation("") == None;
    var obs := Observations([""]);
    assert obs[..0] == [];
  }

  /** Appending a line that yields no observation leaves the result unchanged. */
  lemma AppendSilentLine(text: string, line: string)
    requires '\n' !in line && LineObservation(line) == None
    ensures ParseText(text + "\n" + line) == ParseText(text)
  {
    SplitAppend(text, '\n', line);
    var lines := Split(text, '\n');
    ObservationsSnoc(lines, line);
    CollectSnoc(Observations(lines), None);
  }

  /** Appending a detected line sets exactly that key. */
  lemma AppendDetectedLine(text: string, line: string, k: TestKey, o: Observation)
    requires '\n' !in line && LineObservation(line) == Some((k, o))
    ensures ParseText(text + "\n" + line) == ParseText(text)[k := o]
  {
    SplitAppend(text, '\n', line);
    var lines := Split(text, '\n');
    ObservationsSnoc(lines, line);
    CollectSnoc(Observations(lines), Some((k, o)));
  }

  lemma Hba1cIndex()
    ensures forall i :: 0 <= i < |Tests| && Tests[i].0 == "hba1c" ==> i == 15
  {
  }

  /** A line that mentions "hba1c" also mentions "hb", which the table tries first. */
  lemma LineNeverHba1c(line: string)
    ensures !HasKey(LineObservation(line), "hba1c")
  {
    var lower := Lower(line);
    Hba1cIndex();
    if Contains(lower, "hba1c") {
      ContainsInfix(lower, "hba1c", "hb", 0);
      assert Tests[0].1[1] == "hb";
      assert MentionsAny(lower, Tests[0].1);
    }
    assert Tests[15].1 == ["hba1c"];
  }

  /** A line that mentions "hba1c" is read as hemoglobin, through its alias "hb". */
  lemma Hba1cReadAsHemoglobin(line: string)
    ensures Contains(Lower(line), "hba1c") ==> FirstTest(Tests, Lower(line)) == Some("hemoglobin")
    ensures Contains(Lower(line), "hba1c") && LineObservation(line).Some? ==>
              LineObservation(line).value.0 == "hemoglobin"
  {
    var lower := Lower(line);
    if Contains(lower, "hba1c") {
      ContainsInfix(lower, "hba1c", "hb", 0);
      assert Tests[0].1[1] == "hb";
      assert MentionsAny(lower, Tests[0].1);
    }
  }

  /** The key "hba1c" never reaches the result of `parse`. */
  lemma NeverHba1c(text: string)
    ensures "hba1c" !in ParseText(text)
  {
    var lines := Split(text, '\n');
    forall j | 0 <= j < |lines| ensures !HasKey(LineObservation(lines[j]), "hba1c") {
      LineNeverHba1c(lines[j]);
    }
    ParseLastWins(text, "hba1c");
  }

  lemma {:induction false} CollectNonNegative(obs: seq<Option<(TestKey, Observation)>>)
    requires forall j :: 0 <= j < |obs| && obs[j].Some? ==> obs[j].value.1.value >= 0.0
    ensures forall k :: k in Collect(obs) ==> Collect(obs)[k].value >= 0.0
    decreases |obs|
  {
    if obs != [] {
      CollectNonNegative(obs[..|obs| - 1]);
    }
  }

  /** The number pattern has no sign, so every parsed value is non-negative. */
  lemma ParseNonNegative(text: string)
    ensures forall k :: k in ParseText(text) ==> ParseText(text)[k].value >= 0.0
  {
    var obs := Observations(Split(text, '\n'));
    forall j | 0 <= j < |obs| && obs[j].Some? ensures obs[j].value.1.value >= 0.0 {
      assert obs[j] == LineObservation(Split(text, '\n')[j]);
    }
    CollectNonNegative(obs);
  }
}
