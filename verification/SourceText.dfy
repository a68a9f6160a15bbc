/** Text as the gates handle it: trimmed, cut into lines, and joined again. */
module SourceText {
  type Text = string

  predicate IsSpace(c: char) { c == ' ' || c == '\t' || c == '\n' || c == '\r' }

  function TrimEnd(s: string): (r: string)
    ensures r <= s
  {
    if s != "" && IsSpace(s[|s| - 1]) then TrimEnd(s[..|s| - 1]) else s
  }

  function TrimStart(s: string): (r: string)
  {
    if s != "" && IsSpace(s[0]) then TrimStart(s[1..]) else s
  }

  function Trim(s: string): (r: string) { TrimStart(TrimEnd(s)) }

  lemma TrimKeeps(s: string)
    requires s == "" || (!IsSpace(s[0]) && !IsSpace(s[|s| - 1]))
    ensures Trim(s) == s && TrimEnd(s) == s && TrimStart(s) == s
  {
  }

  /** Splits at the first occurrence of `c`; without one the second part is empty. */
  function SplitOnce(s: string, c: char): (r: (string, string))
  {
    if s == "" then ("", "")
    else if s[0] == c then ("", s[1..])
    else
      var (a, b) := SplitOnce(s[1..], c);
      ([s[0]] + a, b)
  }

  lemma {:induction false} SplitAt(a: string, b: string, c: char)
    requires c !in a
    ensures SplitOnce(a + [c] + b, c) == (a, b)
  {
    var s := a + [c] + b;
    if a == "" {
      assert s[1..] == b;
    } else {
      assert s[1..] == a[1..] + [c] + b;
      SplitAt(a[1..], b, c);
      assert a[0] in a && [a[0]] + a[1..] == a;
    }
  }

  lemma {:induction false} SplitHead(s: string, c: char)
    ensures c !in SplitOnce(s, c).0
  {
    if s != "" && s[0] != c { SplitHead(s[1..], c); }
  }

  /** The position of the first line end at or after `k`, or the length. */
  function LineEnd(text: Text, k: nat): (e: nat)
    requires k <= |text|
    ensures k <= e <= |text|
    ensures '\n' !in text[k..e] && (e < |text| ==> text[e] == '\n')
    decreases |text| - k
  {
    if k == |text| || text[k] == '\n' then k
    else
      var e := LineEnd(text, k + 1);
      assert text[k..e] == [text[k]] + text[k + 1..e];
      e
  }

  /** The lines of a text; a line end at the very end does not start another line. */
  function Lines(text: Text): (lines: seq<string>)
    ensures forall i :: 0 <= i < |lines| ==> '\n' !in lines[i]
    decreases |text|
  {
    if text == "" then []
    else
      var e := LineEnd(text, 0);
      assert text[0..e] == text[..e];
      if e == |text| then [text] else [text[..e]] + Lines(text[e + 1..])
  }

  /** Lines with a line end between any two. */
  function Join(lines: seq<string>): (text: Text)
  {
    if lines == [] then "" else if |lines| == 1 then lines[0] else lines[0] + "\n" + Join(lines[1..])
  }

  // ----- Lengths

  /** The length of lines that all end with a line end. */
  function Weight(lines: seq<string>): (n: nat)
    ensures n >= |lines|
  {
    if lines == [] then 0 else |lines[0]| + 1 + Weight(lines[1..])
  }

  lemma {:induction false} WeightAppend(a: seq<string>, line: string)
    ensures Weight(a + [line]) == Weight(a) + |line| + 1
  {
    if a == [] {
      assert [line][1..] == [];
      assert a + [line] == [line];
    } else {
      assert (a + [line])[1..] == a[1..] + [line];
      WeightAppend(a[1..], line);
    }
  }

  lemma {:induction false} TextWeight(text: Text)
    ensures |text| <= Weight(Lines(text)) <= |text| + 1
    decreases |text|
  {
    if text != "" {
      var e := LineEnd(text, 0);
      if e == |text| {
        assert Lines(text) == [text];
        assert Weight([text]) == |text| + 1;
      } else {
        TextWeight(text[e + 1..]);
        assert Lines(text) == [text[..e]] + Lines(text[e + 1..]);
        assert Lines(text)[1..] == Lines(text[e + 1..]);
      }
    }
  }

  lemma {:induction false} JoinWeight(lines: seq<string>)
    ensures |Join(lines)| == if lines == [] then 0 else Weight(lines) - 1
  {
    if |lines| > 1 { JoinWeight(lines[1..]); }
  }

  // ----- Joined lines read back

  lemma LineEndAt(line: string, rest: Text, k: nat)
    requires '\n' !in line && k <= |line|
    ensures LineEnd(line + "\n" + rest, k) == |line|
    decreases |line| - k
  {
    var text := line + "\n" + rest;
    if k < |line| {
      assert text[k] == line[k];
      LineEndAt(line, rest, k + 1);
    }
  }

  lemma LineEndNone(line: string, k: nat)
    requires '\n' !in line && k <= |line|
    ensures LineEnd(line, k) == |line|
    decreases |line| - k
  {
    if k < |line| { LineEndNone(line, k + 1); }
  }

  /** Lines as a text keeps them: an empty last line is only a line end. */
  function Readable(lines: seq<string>): (r: seq<string>)
  {
    if lines != [] && lines[|lines| - 1] == "" then lines[..|lines| - 1] else lines
  }

  lemma LinesCons(line: string, rest: Text)
    requires '\n' !in line
    ensures Lines(line + "\n" + rest) == [line] + Lines(rest)
  {
    LineEndAt(line, rest, 0);
    var text := line + "\n" + rest;
    assert text[..|line|] == line && text[|line| + 1..] == rest;
  }

  lemma LinesOne(line: string)
    requires '\n' !in line
    ensures Lines(line) == if line == "" then [] else [line]
  {
    LineEndNone(line, 0);
  }

  /** Joined lines read back, except that an empty last line has become the final line end. */
  lemma {:induction false} JoinLines(lines: seq<string>)
    requires forall i :: 0 <= i < |lines| ==> '\n' !in lines[i]
    ensures Lines(Join(lines)) == Readable(lines)
  {
    hide Lines;
    if lines == [] {
      LinesOne("");
    } else if |lines| == 1 {
      LinesOne(lines[0]);
    } else {
      JoinLines(lines[1..]);
      LinesCons(lines[0], Join(lines[1..]));
      assert [lines[0]] + Readable(lines[1..]) == Readable(lines);
    }
  }

  /** Joining adds no line end behind the last line. */
  lemma {:induction false} JoinUnended(lines: seq<string>)
    requires lines != [] && lines[|lines| - 1] != ""
    ensures var last, text := lines[|lines| - 1], Join(lines);
            text != "" && text[|text| - 1] == last[|last| - 1]
  {
    if |lines| > 1 { JoinUnended(lines[1..]); }
  }

  // ----- Line ends

  /** The text has a line end at its very end. */
  predicate Ended(text: Text)
  {
    text != "" && text[|text| - 1] == '\n'
  }

  lemma {:induction false} JoinSnoc(lines: seq<string>, line: string)
    ensures Join(lines + [line]) == if lines == [] then line else Join(lines) + "\n" + line
  {
    if lines == [] {
      assert lines + [line] == [line];
    } else {
      assert (lines + [line])[1..] == lines[1..] + [line];
      JoinSnoc(lines[1..], line);
    }
  }

  /** A text with a line end somewhere is its first line and a rest. */
  lemma FirstLine(text: Text) returns (line: string, rest: Text)
    requires '\n' in text
    ensures '\n' !in line && text == line + "\n" + rest && |rest| < |text|
  {
    hide LineEnd;
    var e := LineEnd(text, 0);
    assert text[0..e] == text[..e] && text == text[..e] + text[e..];
    line, rest := text[..e], text[e + 1..];
  }

  lemma JoinFirst(line: string, lines: seq<string>)
    ensures Join([line] + lines) == if lines == [] then line else line + "\n" + Join(lines)
  {
    assert ([line] + lines)[1..] == lines;
  }

  lemma EndedRest(line: string, rest: Text)
    ensures Ended(line + "\n" + rest) <==> rest == "" || Ended(rest)
  {
  }

  /** A text is its lines, joined, with its final line end if it has one. */
  lemma {:induction false} TextOfLines(text: Text)
    ensures text == Join(Lines(text)) + if Ended(text) then "\n" else ""
    decreases |text|
  {
    hide Lines, Join, Ended;
    if '\n' in text {
      var line, rest := FirstLine(text);
      TextOfLines(rest);
      LinesCons(line, rest);
      LineOfRest(rest);
      JoinFirst(line, Lines(rest));
      EndedRest(line, rest);
    } else {
      LinesOne(text);
      NoneJoined(text);
    }
  }

  lemma NoneJoined(text: Text)
    requires '\n' !in text
    ensures Join([]) == "" && Join([text]) == text && !Ended(text)
  {
  }

  lemma LineOfRest(rest: Text)
    ensures Lines(rest) == [] <==> rest == ""
  {
  }
}
