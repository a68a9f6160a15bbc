/** The substring test by which the orphan gate recognises `mod <name>;` lines. */
module ModDeclText {
  const PREFIXES: seq<string> := ["mod ", "pub mod ", "pub(crate) mod ", "pub(super) mod "]

  predicate StartsWith(s: string, p: string) { |p| <= |s| && s[..|p|] == p }

  predicate EndsWith(s: string, p: string) { |p| <= |s| && s[|s| - |p|..] == p }

  predicate ContainsAt(s: string, p: string, k: nat) { k + |p| <= |s| && s[k..k + |p|] == p }

  predicate Contains(s: string, p: string) { exists k: nat :: k <= |s| && ContainsAt(s, p, k) }

  /** A trimmed line is taken for the declaration of `name`. */
  predicate TakenForDecl(line: string, name: string)
  {
    (exists i :: 0 <= i < |PREFIXES| && StartsWith(line, PREFIXES[i])) && Contains(line, name + ";")
  }

  /** Module names hold no blank and no semicolon. */
  predicate Identifier(s: string) { s != "" && ' ' !in s && ';' !in s }

  /** A declaration prefix, text up to the first semicolon, and the text behind it. */
  function DeclLine(prefix: string, head: string, rest: string): (r: string) { prefix + head + ";" + rest }

  lemma PrefixShape(i: nat)
    requires i < |PREFIXES|
    ensures var p := PREFIXES[i]; p != "" && p[|p| - 1] == ' ' && ';' !in p
  {
  }

  lemma MatchedChars(s: string, p: string, k: nat)
    requires ContainsAt(s, p, k)
    ensures forall q :: k <= q < k + |p| ==> s[q] == p[q - k]
  {
    forall q | k <= q < k + |p| ensures s[q] == p[q - k] {
      assert s[k..k + |p|][q - k] == s[q];
    }
  }

  /** A match either ends at the first semicolon or lies wholly behind it. */
  lemma MatchPlace(prefix: string, head: string, rest: string, name: string, k: nat)
    requires ';' !in prefix && ';' !in head && Identifier(name)
    requires ContainsAt(DeclLine(prefix, head, rest), name + ";", k)
    ensures k + |name| == |prefix| + |head| || k > |prefix| + |head|
  {
    var line, e := DeclLine(prefix, head, rest), |prefix| + |head|;
    MatchedChars(line, name + ";", k);
    assert line[k + |name|] == ';';
    forall q | 0 <= q < e ensures line[q] != ';' {
      assert if q < |prefix| then line[q] == prefix[q] else line[q] == head[q - |prefix|];
    }
    forall q | k <= q < k + |name| ensures line[q] != ';' {
      assert name[q - k] in name;
    }
    assert line[e] == ';';
  }

  lemma MatchBehind(prefix: string, head: string, rest: string, word: string, k: nat)
    requires ContainsAt(DeclLine(prefix, head, rest), word, k) && k > |prefix| + |head|
    ensures Contains(rest, word)
  {
    var line, e := DeclLine(prefix, head, rest), |prefix| + |head| + 1;
    assert line[e..] == rest;
    assert rest[k - e..k - e + |word|] == line[k..k + |word|];
    assert ContainsAt(rest, word, k - e);
  }

  lemma MatchAtHead(prefix: string, head: string, rest: string, name: string, k: nat)
    requires prefix != "" && prefix[|prefix| - 1] == ' ' && Identifier(name)
    requires ContainsAt(DeclLine(prefix, head, rest), name + ";", k) && k + |name| == |prefix| + |head|
    ensures EndsWith(head, name)
  {
    var line := DeclLine(prefix, head, rest);
    MatchedChars(line, name + ";", k);
    forall q | k <= q < k + |name| ensures line[q] == name[q - k] && line[q] != ' ' {
      assert name[q - k] in name;
    }
    assert line[|prefix| - 1] == ' ';
    var tail := head[k - |prefix|..];
    forall j | 0 <= j < |name| ensures tail[j] == name[j] {
      assert line[k + j] == head[k + j - |prefix|];
    }
    assert tail == name;
  }

  lemma HeadMatches(prefix: string, head: string, rest: string, name: string)
    requires EndsWith(head, name)
    ensures Contains(DeclLine(prefix, head, rest), name + ";")
  {
    var line, k := DeclLine(prefix, head, rest), |prefix| + |head| - |name|;
    assert line[k..k + |name| + 1] == head[|head| - |name|..] + ";";
    assert ContainsAt(line, name + ";", k);
  }

  lemma RestMatches(prefix: string, head: string, rest: string, word: string)
    requires Contains(rest, word)
    ensures Contains(DeclLine(prefix, head, rest), word)
  {
    var line, e := DeclLine(prefix, head, rest), |prefix| + |head| + 1;
    var k: nat :| k <= |rest| && ContainsAt(rest, word, k);
    assert line[e..] == rest;
    assert line[e + k..e + k + |word|] == rest[k..k + |word|];
    assert ContainsAt(line, word, e + k);
  }

  /**
   A line with a declaration prefix is taken for the declaration of `name` exactly when the
   text before its first semicolon ends with that name, or the name and a semicolon occur
   behind it.
   */
  lemma TakenExactly(i: nat, head: string, rest: string, name: string)
    requires i < |PREFIXES| && ';' !in head && Identifier(name)
    ensures TakenForDecl(DeclLine(PREFIXES[i], head, rest), name) <==> EndsWith(head, name) || Contains(rest, name + ";")
  {
    var prefix := PREFIXES[i];
    var line := DeclLine(prefix, head, rest);
    PrefixShape(i);
    assert StartsWith(line, PREFIXES[i]);
    if EndsWith(head, name) { HeadMatches(prefix, head, rest, name); }
    if Contains(rest, name + ";") { RestMatches(prefix, head, rest, name + ";"); }
    if Contains(line, name + ";") {
      var k: nat :| k <= |line| && ContainsAt(line, name + ";", k);
      MatchPlace(prefix, head, rest, name, k);
      if k > |prefix| + |head| {
        MatchBehind(prefix, head, rest, name + ";", k);
      } else {
        MatchAtHead(prefix, head, rest, name, k);
      }
    }
  }

  lemma MatchHasSemicolon(line: string, name: string, k: nat)
    requires ContainsAt(line, name + ";", k)
    ensures ';' in line
  {
    MatchedChars(line, name + ";", k);
    assert line[k + |name|] == ';';
  }

  /** Without a semicolon a line declares nothing. */
  lemma NotTakenWithoutSemicolon(line: string, name: string)
    ensures TakenForDecl(line, name) ==> ';' in line
  {
    if TakenForDecl(line, name) {
      var k: nat :| k <= |line| && ContainsAt(line, name + ";", k);
      MatchHasSemicolon(line, name, k);
    }
  }

  lemma CommentMatches()
    ensures Contains(" // bar;", "bar" + ";")
  {
    assert "bar" + ";" == "bar;";
    assert ContainsAt(" // bar;", "bar;", 4);
  }

  /** Stripping `bar` also strips the declaration of `foobar`, and that of `foo` with `bar;` in a comment behind it. */
  lemma OtherNamesAreStrippedToo()
    ensures TakenForDecl("mod bar;", "bar") && TakenForDecl("mod foobar;", "bar") && TakenForDecl("mod foo; // bar;", "bar")
  {
    hide TakenForDecl, Contains;
    var p := PREFIXES[0];
    assert DeclLine(p, "bar", "") == "mod bar;" && DeclLine(p, "foobar", "") == "mod foobar;";
    assert DeclLine(p, "foo", " // bar;") == "mod foo; // bar;";
    TakenExactly(0, "bar", "", "bar");
    TakenExactly(0, "foobar", "", "bar");
    TakenExactly(0, "foo", " // bar;", "bar");
    CommentMatches();
  }
}
