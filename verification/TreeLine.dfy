/** One line of the depth-prefixed dependency listing, as text. */
module TreeLine {
  import opened Bytes
  import opened DateStrings
  import opened SourceText

  predicate IsDigit(c: char) { '0' <= c <= '9' }

  // ----- String operations of the parser

  function LeadingDigits(s: string): (r: string)
    ensures r <= s
  {
    if s == "" || !IsDigit(s[0]) then "" else [s[0]] + LeadingDigits(s[1..])
  }

  function DigitValue(c: char): (n: nat)
    requires IsDigit(c)
  {
    c as int - '0' as int
  }

  function DigitsValue(s: string): (n: nat)
    requires forall i :: 0 <= i < |s| ==> IsDigit(s[i])
  {
    if s == "" then 0 else 10 * DigitsValue(s[..|s| - 1]) + DigitValue(s[|s| - 1])
  }

  function LeadingWord(s: string): (r: string)
    ensures r <= s
  {
    if s == "" || IsSpace(s[0]) then "" else [s[0]] + LeadingWord(s[1..])
  }

  function StripSuffix(s: string, suffix: string): (r: string)
  {
    if |suffix| <= |s| && s[|s| - |suffix|..] == suffix then s[..|s| - |suffix|] else s
  }

  function SplitComma(s: string): (r: seq<string>)
    ensures |r| >= 1
  {
    if s == "" then [""]
    else
      var rest := SplitComma(s[1..]);
      if s[0] == ',' then [""] + rest else [[s[0]] + rest[0]] + rest[1..]
  }

  function TrimmedNonEmpty(parts: seq<string>): (r: seq<string>)
  {
    if parts == [] then []
    else
      var p := Trim(parts[0]);
      (if p == "" then [] else [p]) + TrimmedNonEmpty(parts[1..])
  }

  // ----- The parser

  datatype Line = Line(depth: nat, package: string, features: seq<string>)

  const MAX_DEPTH: nat := 0xFFFF_FFFF_FFFF_FFFF

  function ParseFeatures(text: string): (r: seq<string>)
  {
    var t := Trim(StripSuffix(StripSuffix(Trim(text), " (*)"), "(*)"));
    if t == "" then [] else TrimmedNonEmpty(SplitComma(t))
  }

  function ParsePackage(text: string): (r: string)
  {
    var word := LeadingWord(TrimStart(text));
    if word == "" then text else word
  }

  lemma {:induction false} LeadingAreDigits(s: string)
    ensures forall i :: 0 <= i < |LeadingDigits(s)| ==> IsDigit(LeadingDigits(s)[i])
  {
    if s != "" && IsDigit(s[0]) { LeadingAreDigits(s[1..]); }
  }

  /** A line without a leading number, or with one beyond the machine word, is skipped. */
  function ParseTreeLine(text: string): (r: Option<Line>)
  {
    var line := TrimEnd(text);
    var digits := LeadingDigits(line);
    LeadingAreDigits(line);
    if digits == "" || DigitsValue(digits) > MAX_DEPTH then None
    else
      var (package, features) := SplitOnce(line[|digits|..], '|');
      Some(Line(DigitsValue(digits), ParsePackage(package), ParseFeatures(features)))
  }

  // ----- The printer

  function JoinComma(fs: seq<string>): (r: string)
  {
    if fs == [] then "" else if |fs| == 1 then fs[0] else fs[0] + "," + JoinComma(fs[1..])
  }

  /** Name, then version and path, then the activated features; a repeated subtree is starred. */
  function Render(p: Line, detail: string, starred: bool): (r: string)
  {
    Padded(p.depth, 1) + (p.package + detail + "|" + (JoinComma(p.features) + if starred then " (*)" else ""))
  }

  predicate PackageName(s: string)
  {
    s != "" && !IsDigit(s[0]) && forall i :: 0 <= i < |s| ==> !IsSpace(s[i]) && s[i] != '|'
  }

  predicate FeatureName(s: string)
  {
    s != "" && forall i :: 0 <= i < |s| ==> !IsSpace(s[i]) && s[i] != ',' && s[i] != ')'
  }

  predicate Printable(p: Line, detail: string)
  {
    && p.depth <= MAX_DEPTH
    && PackageName(p.package)
    && (detail == "" || IsSpace(detail[0])) && '|' !in detail
    && forall i :: 0 <= i < |p.features| ==> FeatureName(p.features[i])
  }

  // ----- Round trip

  lemma {:induction false} PaddedDigits(n: nat)
    ensures forall i :: 0 <= i < |Padded(n, 1)| ==> IsDigit(Padded(n, 1)[i])
    ensures DigitsValue(Padded(n, 1)) == n
  {
    if n >= 10 {
      PaddedDigitsAny(n / 10);
      PaddedDigitsAny(n);
      PaddedZeroIsOne(n);
    }
  }

  lemma PaddedZeroIsOne(n: nat)
    ensures Padded(n, 0) == Padded(n, 1)
  {
  }

  lemma {:induction false} PaddedDigitsAny(n: nat)
    ensures forall i :: 0 <= i < |Padded(n, 0)| ==> IsDigit(Padded(n, 0)[i])
    ensures DigitsValue(Padded(n, 0)) == n
  {
    if n >= 10 {
      PaddedDigitsAny(n / 10);
      assert Padded(n, 0)[..|Padded(n, 0)| - 1] == Padded(n / 10, 0);
    }
  }

  lemma {:induction false} DigitsTaken(d: string, rest: string)
    requires (forall i :: 0 <= i < |d| ==> IsDigit(d[i])) && (rest == "" || !IsDigit(rest[0]))
    ensures LeadingDigits(d + rest) == d
  {
    if d == "" {
      assert d + rest == rest;
    } else {
      assert (d + rest)[1..] == d[1..] + rest;
      DigitsTaken(d[1..], rest);
    }
  }

  lemma {:induction false} WordTaken(w: string, rest: string)
    requires (forall i :: 0 <= i < |w| ==> !IsSpace(w[i])) && (rest == "" || IsSpace(rest[0]))
    ensures LeadingWord(w + rest) == w
  {
    if w == "" {
      assert w + rest == rest;
    } else {
      assert (w + rest)[1..] == w[1..] + rest;
      WordTaken(w[1..], rest);
    }
  }

  lemma {:induction false} CommaSplit(f: string, rest: string)
    requires forall i :: 0 <= i < |f| ==> f[i] != ','
    ensures SplitComma(f + "," + rest) == [f] + SplitComma(rest)
  {
    var s := f + "," + rest;
    if f == "" {
      assert s[1..] == rest;
    } else {
      assert s[1..] == f[1..] + "," + rest;
      CommaSplit(f[1..], rest);
      var split := SplitComma(s[1..]);
      assert split[0] == f[1..] && split[1..] == SplitComma(rest);
      assert [f[0]] + f[1..] == f;
    }
  }

  lemma {:induction false} NoComma(f: string)
    requires forall i :: 0 <= i < |f| ==> f[i] != ','
    ensures SplitComma(f) == [f]
  {
    if f != "" {
      NoComma(f[1..]);
      assert [f[0]] + f[1..] == f;
    }
  }

  lemma {:induction false} JoinSplit(fs: seq<string>)
    requires fs != [] && forall i :: 0 <= i < |fs| ==> FeatureName(fs[i])
    ensures TrimmedNonEmpty(SplitComma(JoinComma(fs))) == fs
  {
    TrimKeeps(fs[0]);
    if |fs| == 1 {
      NoComma(fs[0]);
      assert [fs[0]][1..] == [];
      assert fs == [fs[0]];
    } else {
      CommaSplit(fs[0], JoinComma(fs[1..]));
      JoinSplit(fs[1..]);
      assert ([fs[0]] + SplitComma(JoinComma(fs[1..])))[1..] == SplitComma(JoinComma(fs[1..]));
      assert fs == [fs[0]] + fs[1..];
    }
  }

  /** A printed feature list begins and ends with a character of a feature. */
  lemma {:induction false} JoinEnds(fs: seq<string>)
    requires fs != [] && forall i :: 0 <= i < |fs| ==> FeatureName(fs[i])
    ensures var s := JoinComma(fs); s != "" && !IsSpace(s[0]) && !IsSpace(s[|s| - 1]) && s[|s| - 1] != ')'
  {
    if |fs| > 1 { JoinEnds(fs[1..]); }
  }

  lemma StripsAbsent(s: string)
    requires s == "" || s[|s| - 1] != ')'
    ensures StripSuffix(s, " (*)") == s && StripSuffix(s, "(*)") == s
  {
  }

  lemma StarStripped(s: string)
    requires s != "" && !IsSpace(s[0])
    ensures Trim(s + " (*)") == s + " (*)" && StripSuffix(s + " (*)", " (*)") == s
  {
    var text := s + " (*)";
    assert text[|text| - 4..] == " (*)" && text[..|text| - 4] == s;
    TrimKeeps(text);
  }

  lemma FeaturesRoundTrip(fs: seq<string>, starred: bool)
    requires forall i :: 0 <= i < |fs| ==> FeatureName(fs[i])
    ensures ParseFeatures(JoinComma(fs) + if starred then " (*)" else "") == fs
  {
    hide SplitComma, TrimmedNonEmpty, FeatureName, Trim, StripSuffix, JoinComma;
    if fs == [] {
      EmptyFeatures();
      NothingJoined(starred);
    } else {
      var s := JoinComma(fs);
      JoinEnds(fs);
      JoinSplit(fs);
      TrimKeeps(s);
      StripsAbsent(s);
      StarStripped(s);
      assert s + "" == s;
    }
  }

  lemma NothingJoined(starred: bool)
    ensures JoinComma([]) + (if starred then " (*)" else "") == if starred then " (*)" else ""
  {
  }

  lemma EmptyFeatures()
    ensures ParseFeatures(" (*)") == [] && ParseFeatures("") == []
  {
    hide SplitComma, TrimmedNonEmpty;
    var star: string, bare: string := " (*)", "(*)";
    assert star[1..] == bare && star[3] == ')' && bare[0] == '(';
    assert TrimEnd(star) == star && TrimStart(bare) == bare && TrimStart(star) == bare;
    assert bare[..0] == "" && bare[0..] == bare;
    assert StripSuffix(bare, star) == bare && StripSuffix(bare, bare) == "";
    var none: string := "";
    assert Trim(none) == none;
  }

  /** Parsing a printed line gives back its depth, package and features. */
  lemma LineRoundTrip(p: Line, detail: string, starred: bool)
    requires Printable(p, detail)
    ensures ParseTreeLine(Render(p, detail, starred)) == Some(p)
  {
    hide ParseFeatures, LeadingDigits, DigitsValue, SplitOnce, LeadingWord, Padded, JoinComma;
    var d := Padded(p.depth, 1);
    var tail := JoinComma(p.features) + if starred then " (*)" else "";
    var head := p.package + detail;
    var rest := head + "|" + tail;
    var line := Render(p, detail, starred);
    assert line == d + rest;
    PaddedDigits(p.depth);
    LastIsNotSpace(p, starred);
    TrimKeepsEnd(line, d + head + "|", tail);
    assert rest[0] == p.package[0];
    DigitsTaken(d, rest);
    assert line[|d|..] == rest && "|" == ['|'];
    SplitAt(head, tail, '|');
    TrimStartKeeps(head);
    WordTaken(p.package, detail);
    FeaturesRoundTrip(p.features, starred);
  }

  lemma TrimStartKeeps(s: string)
    requires s != "" && !IsSpace(s[0])
    ensures TrimStart(s) == s
  {
  }

  lemma LastIsNotSpace(p: Line, starred: bool)
    requires forall i :: 0 <= i < |p.features| ==> FeatureName(p.features[i])
    ensures var tail := JoinComma(p.features) + if starred then " (*)" else "";
            tail == "" || !IsSpace(tail[|tail| - 1])
  {
    hide FeatureName;
    if p.features != [] { JoinEnds(p.features); }
  }

  lemma TrimKeepsEnd(line: string, front: string, tail: string)
    requires line == front + tail && front != "" && !IsSpace(front[|front| - 1])
    requires tail == "" || !IsSpace(tail[|tail| - 1])
    ensures TrimEnd(line) == line
  {
    assert line[|line| - 1] == if tail == "" then front[|front| - 1] else tail[|tail| - 1];
  }
}
