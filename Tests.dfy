/** The unit tests of src/lib.rs (`mod tests`), restated as lemmas about the
    model: the lines the two searches return for the test texts. */
module Tests {
  import opened Strings
  import opened LineSearch

  /** Lines written one after the other, each but the last ended by a line feed,
      are cut back into those lines (here for two, three and four lines). */
  lemma LinesTwo(l0: string, l1: string)
    requires '\n' !in l0 && '\n' !in l1 && l1 != [] && StripCr(l0) == l0
    ensures Lines(l0 + "\n" + l1) == [l0, l1]
  {
    LinesSingle(l1);
    LinesCons(l0, l1);
  }

  lemma LinesThree(l0: string, l1: string, l2: string)
    requires '\n' !in l0 && '\n' !in l1 && '\n' !in l2 && l2 != []
    requires StripCr(l0) == l0 && StripCr(l1) == l1
    ensures Lines(l0 + "\n" + (l1 + "\n" + l2)) == [l0, l1, l2]
  {
    LinesTwo(l1, l2);
    LinesCons(l0, l1 + "\n" + l2);
  }

  lemma LinesFour(l0: string, l1: string, l2: string, l3: string)
    requires '\n' !in l0 && '\n' !in l1 && '\n' !in l2 && '\n' !in l3 && l3 != []
    requires StripCr(l0) == l0 && StripCr(l1) == l1 && StripCr(l2) == l2
    ensures Lines(l0 + "\n" + (l1 + "\n" + (l2 + "\n" + l3))) == [l0, l1, l2, l3]
  {
    LinesThree(l1, l2, l3);
    LinesCons(l0, l1 + "\n" + (l2 + "\n" + l3));
  }

  /** Matching over one line. */
  lemma MatchingOne(l: string, query: string, ignoreCase: bool)
    ensures Matching([l], query, ignoreCase) == if LineMatches(l, query, ignoreCase) then [l] else []
  {
    assert [l][..0] == [];
  }

  /** Matching over four lines, spelled out. */
  lemma MatchingFour(l0: string, l1: string, l2: string, l3: string, query: string, ignoreCase: bool)
    ensures Matching([l0, l1, l2, l3], query, ignoreCase)
         == (if LineMatches(l0, query, ignoreCase) then [l0] else [])
          + (if LineMatches(l1, query, ignoreCase) then [l1] else [])
          + (if LineMatches(l2, query, ignoreCase) then [l2] else [])
          + (if LineMatches(l3, query, ignoreCase) then [l3] else [])
  {
    MatchingOne(l0, query, ignoreCase);
    MatchingOne(l1, query, ignoreCase);
    MatchingOne(l2, query, ignoreCase);
    MatchingOne(l3, query, ignoreCase);
    MatchingAppend([l0], [l1], query, ignoreCase);
    assert [l0] + [l1] == [l0, l1];
    MatchingAppend([l0, l1], [l2], query, ignoreCase);
    assert [l0, l1] + [l2] == [l0, l1, l2];
    MatchingAppend([l0, l1, l2], [l3], query, ignoreCase);
    assert [l0, l1, l2] + [l3] == [l0, l1, l2, l3];
  }

  /** Which lines of the two tests of src/lib.rs the queries match. */
  lemma DuctHit0() ensures !LineMatches("Rust:", "duct", false) {
    NotContainsWithoutFirst("Rust:", "duct");
  }

  lemma DuctHit1() ensures LineMatches("safe, fast, productive.", "duct", false) {
    assert OccursAt("ductive.", "duct", 0);
    ContainsInSuffix("safe, fast, pro", "ductive.", "duct");
    assert "safe, fast, pro" + "ductive." == "safe, fast, productive.";
  }

  lemma DuctHit2() ensures !LineMatches("Pick three.", "duct", false) {
    NotContainsWithoutFirst("Pick three.", "duct");
  }

  lemma DuctHit3() ensures !LineMatches("Duct tape.", "duct", false) {
    NotContainsWithoutFirst("Duct tape.", "duct");
  }

  lemma RustHit0() ensures LineMatches("Rust:", "rUsT", true) {
    assert Lower("rUsT") == "rust";
    assert Lower("Rust:") == "rust:";
    assert OccursAt("rust:", "rust", 0);
  }

  lemma RustHit1() ensures !LineMatches("safe, fast, productive.", "rUsT", true) {
    LowerQuery();
    LowerLine1();
    NotContainsRust1();
  }

  lemma RustHit2() ensures !LineMatches("Pick three.", "rUsT", true) {
    LowerQuery();
    LowerLine2();
    NotContainsRust2();
  }

  lemma LowerQuery() ensures Lower("rUsT") == "rust" {
  }

  lemma LowerLine1() ensures Lower("safe, fast, productive.") == "safe, fast, productive." {
  }

  lemma LowerLine2() ensures Lower("Pick three.") == "pick three." {
  }

  lemma NotContainsRust1() ensures !Contains("safe, fast, productive.", "rust") {
    assert "safe, fast, productive." == "safe, fast, p" + "roductive.";
    ContainsSkip("safe, fast, p", "roductive.", "rust");
    assert "roductive."[1] != "rust"[1];
    ContainsStep("roductive.", "rust");
    assert "roductive."[1..] == "oductive.";
    NotContainsWithoutFirst("oductive.", "rust");
  }

  lemma NotContainsRust2() ensures !Contains("pick three.", "rust") {
    assert "pick three." == "pick th" + "ree.";
    ContainsSkip("pick th", "ree.", "rust");
    assert "ree."[1] != "rust"[1];
    ContainsStep("ree.", "rust");
    assert "ree."[1..] == "ee.";
    NotContainsWithoutFirst("ee.", "rust");
  }

  lemma RustHit3() ensures LineMatches("Trust me.", "rUsT", true) {
    assert Lower("rUsT") == "rust";
    assert Lower("Trust me.") == "t" + "rust me.";
    assert OccursAt("rust me.", "rust", 0);
    ContainsInSuffix("t", "rust me.", "rust");
  }

  /** The contents of the two tests of src/lib.rs, cut into lines. */
  lemma ScenarioLines(last: string)
    requires last == "Duct tape." || last == "Trust me."
    ensures Lines("Rust:" + "\n" + ("safe, fast, productive." + "\n" + ("Pick three." + "\n" + last)))
         == ["Rust:", "safe, fast, productive.", "Pick three.", last]
  {
    LinesFour("Rust:", "safe, fast, productive.", "Pick three.", last);
  }

  /** The case-sensitive test from src/lib.rs: only the line with "duct" in
      lower case is found; "Duct tape." is not. */
  lemma CaseSensitiveScenario()
    ensures Matching(Lines("Rust:" + "\n" + ("safe, fast, productive." + "\n" + ("Pick three." + "\n" + "Duct tape."))), "duct", false)
         == ["safe, fast, productive."]
  {
    ScenarioLines("Duct tape.");
    CaseSensitiveMatches();
  }

  lemma CaseSensitiveMatches()
    ensures Matching(["Rust:", "safe, fast, productive.", "Pick three.", "Duct tape."], "duct", false)
         == ["safe, fast, productive."]
  {
    MatchingFour("Rust:", "safe, fast, productive.", "Pick three.", "Duct tape.", "duct", false);
    DuctHit0();
    DuctHit1();
    DuctHit2();
    DuctHit3();
  }

  /** The case-insensitive test from src/lib.rs: "rUsT" finds "Rust:" and
      "Trust me.", returned in their own case. */
  lemma CaseInsensitiveScenario()
    ensures Matching(Lines("Rust:" + "\n" + ("safe, fast, productive." + "\n" + ("Pick three." + "\n" + "Trust me."))), "rUsT", true)
         == ["Rust:", "Trust me."]
  {
    ScenarioLines("Trust me.");
    CaseInsensitiveMatches();
  }

  lemma CaseInsensitiveMatches()
    ensures Matching(["Rust:", "safe, fast, productive.", "Pick three.", "Trust me."], "rUsT", true)
         == ["Rust:", "Trust me."]
  {
    MatchingFour("Rust:", "safe, fast, productive.", "Pick three.", "Trust me.", "rUsT", true);
    RustHit0();
    RustHit1();
    RustHit2();
    RustHit3();
  }
}
