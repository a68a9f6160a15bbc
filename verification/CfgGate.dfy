/** The attributes as the mock-leak gate reads them, and what its scanner can be relied on for. */
module CfgGate {
  import opened Bytes
  import opened SourceText
  import opened ModDeclText
  import opened CfgSource
  import opened CfgReliable

  const CFG: string := "#[cfg("

  /** The text of an attribute line; None for any other line. */
  function CfgAttrText(line: string): (r: Option<string>)
  {
    var t := TrimStart(line);
    if !StartsWith(t, CFG) then None
    else
      var inner := Trim(SplitOnce(t[|CFG|..], ']').0);
      if inner == "" then None else Some(inner)
  }

  /** The attribute protects test or mock code. */
  predicate Protects(cfg: string)
  {
    !Contains(cfg, "not(") && (Contains(cfg, "test") || Contains(cfg, "feature = \"mock\""))
  }

  /** The texts that attributes have. */
  predicate AttributeText(t: string) { t != "" && Trim(t) == t && ']' !in t }

  const GATE: Vocabulary := Vocabulary(AttributeText, Protects)

  // ----- Which texts attributes have

  lemma {:induction false} TrimEndShape(s: string)
    ensures var t := TrimEnd(s); t == "" || !IsSpace(t[|t| - 1])
  {
    if s != "" && IsSpace(s[|s| - 1]) { TrimEndShape(s[..|s| - 1]); }
  }

  lemma {:induction false} TrimStartShape(s: string)
    ensures var t := TrimStart(s); |t| <= |s| && t == s[|s| - |t|..] && (t == "" || !IsSpace(t[0]))
  {
    if s != "" && IsSpace(s[0]) { TrimStartShape(s[1..]); }
  }

  lemma TrimShape(s: string)
    ensures Trim(Trim(s)) == Trim(s)
    ensures forall c :: c in Trim(s) ==> c in s
  {
    hide TrimStart, TrimEnd;
    var e, t := TrimEnd(s), TrimStart(TrimEnd(s));
    TrimEndShape(s);
    TrimStartShape(e);
    assert t != "" ==> t[|t| - 1] == e[|e| - 1];
    assert t == Trim(s);
    TrimKeeps(t);
  }

  lemma ReadBack(t: string)
    requires AttributeText(t)
    ensures CfgAttrText(CFG + t + "]") == Some(t)
  {
    hide Trim, TrimStart, SplitOnce;
    var line := CFG + t + "]";
    StartKept(line);
    SplitAt(t, "", ']');
    assert line[|CFG|..] == t + [']'] + "";
  }

  /** Exactly the non-empty, trimmed texts without a closing bracket are read from some line. */
  lemma AttributeTexts(t: string)
    ensures AttributeText(t) <==> exists line :: CfgAttrText(line) == Some(t)
  {
    hide Trim, TrimStart, SplitOnce;
    if AttributeText(t) {
      ReadBack(t);
    }
    if line :| CfgAttrText(line) == Some(t) {
      var rest := TrimStart(line)[|CFG|..];
      SplitHead(rest, ']');
      TrimShape(SplitOnce(rest, ']').0);
    }
  }

  lemma StartKept(line: string)
    requires StartsWith(line, CFG)
    ensures TrimStart(line) == line
  {
    assert line[0] == CFG[0];
  }

  // ----- The gate

  /** `#[cfg(test)]` protects and `#[cfg(unix)]` does not. */
  lemma GateDistinguishes()
    ensures CfgAttrText("#[cfg(test)]") == Some("test)") && CfgAttrText("#[cfg(unix)]") == Some("unix)")
    ensures Distinguishes(GATE, "test)", "unix)")
  {
    hide SplitOnce, Trim, TrimStart, Contains;
    var good: string, bad: string := "test)", "unix)";
    assert CFG + good + "]" == "#[cfg(test)]" && CFG + bad + "]" == "#[cfg(unix)]";
    TrimKeeps(good);
    TrimKeeps(bad);
    ReadBack(good);
    ReadBack(bad);
    GoodProtects();
    BadDoesNot();
  }

  lemma GoodProtects()
    ensures Protects("test)")
  {
    var t: string := "test)";
    assert ContainsAt(t, "test", 0);
    forall k: nat | k <= |t|
      ensures !ContainsAt(t, "not(", k)
    {
      assert '(' !in t;
      LacksChar(t, "not(", k, 3);
    }
  }

  lemma BadDoesNot()
    ensures !Protects("unix)")
  {
    var t: string := "unix)";
    forall k: nat | k <= |t|
      ensures !ContainsAt(t, "test", k) && !ContainsAt(t, "feature = \"mock\"", k)
    {
      assert 't' !in t && 'f' !in t;
      LacksChar(t, "test", k, 0);
      LacksChar(t, "feature = \"mock\"", k, 0);
    }
  }

  lemma LacksChar(s: string, p: string, k: nat, j: nat)
    requires j < |p| && p[j] !in s
    ensures !ContainsAt(s, p, k)
  {
    if k + |p| <= |s| {
      assert s[k..k + |p|][j] == s[k + j];
    }
  }

  /**
   With the gate's own reading of attributes: the scanner can be relied on for a source, broken
   off anywhere and continued by plain lines, exactly when it is well-attributed; and a source
   whose inline items are visible is itself always scanned exactly, exactly then.
   */
  lemma GateReliable(pieces: seq<Piece>)
    requires Grammatical(pieces)
    ensures Reliable(GATE, pieces) <==> WellAttributed(pieces)
    ensures Visible(pieces) ==> (AlwaysExact(GATE, pieces) <==> WellAttributed(pieces))
  {
    hide AlwaysExact, Grammatical, WellAttributed, Distinguishes, Visible, Reliable;
    GateDistinguishes();
    ReliableExactly(GATE, "test)", "unix)", pieces);
    if Visible(pieces) {
      AlwaysExactly(GATE, "test)", "unix)", pieces);
    }
  }
}
