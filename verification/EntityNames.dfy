/** Names of entities and types of relations, as the store and the extractor normalise them. Letter case is that of ASCII. */
module EntityNames {
  import opened Words

  function LowerChar(c: char): char {
    if 'A' <= c <= 'Z' then (c as int + 32) as char else c
  }

  function Lower(s: string): (r: string)
    ensures |r| == |s| && forall i | 0 <= i < |s| :: r[i] == LowerChar(s[i])
  {
    seq(|s|, i requires 0 <= i < |s| => LowerChar(s[i]))
  }

  function NormalizeKind(k: string): string {
    var t := Lower(TrimSpace(k));
    if t in ["person", "people", "individual"] then "person"
    else if t in ["org", "organization", "organisation", "company", "team"] then "org"
    else if t in ["project", "product", "repo", "repository"] then "project"
    else "concept"
  }

  /** Spaces and hyphens become underscores; whatever is not a lower-case letter, a digit or an underscore goes. */
  function Slug(s: string): string {
    if s == "" then "" else SlugChar(if s[0] == ' ' || s[0] == '-' then '_' else s[0]) + Slug(s[1..])
  }

  function SlugChar(c: char): string {
    if 'a' <= c <= 'z' || '0' <= c <= '9' || c == '_' then [c] else ""
  }

  function TrimUnderscores(s: string): string {
    if s != "" && s[0] == '_' then TrimUnderscores(s[1..])
    else if s != "" && s[|s| - 1] == '_' then TrimUnderscores(s[..|s| - 1])
    else s
  }

  function NormalizeRelType(t: string): string {
    TrimUnderscores(Slug(Lower(TrimSpace(t))))
  }

  /** Texts are equal but for case exactly when they are, letter by letter, the same or the two cases of one letter. */
  lemma SameLettersIff(s: string, t: string)
    ensures Lower(s) == Lower(t) <==>
      |s| == |t| && forall i | 0 <= i < |s| :: s[i] == t[i] || CaseOf(s[i], t[i]) || CaseOf(t[i], s[i])
  {
    if Lower(s) == Lower(t) {
      assert |s| == |Lower(s)| == |t|;
      forall i | 0 <= i < |s| ensures s[i] == t[i] || CaseOf(s[i], t[i]) || CaseOf(t[i], s[i]) {
        assert Lower(s)[i] == Lower(t)[i];
      }
    }
  }

  /** An ASCII capital and its small letter. */
  ghost predicate CaseOf(capital: char, small: char) {
    'A' <= capital <= 'Z' && small as int == capital as int + 32
  }

  /* ---- kinds ---- */

  lemma TrimmedStays(s: string)
    requires IsTrimmed(s)
    ensures TrimSpace(s) == s
  {
  }

  lemma SmallStays(s: string)
    requires forall i | 0 <= i < |s| :: !('A' <= s[i] <= 'Z')
    ensures Lower(s) == s
  {
  }

  /** Every kind is one of four, and each of the four is its own. */
  lemma KindIsCanonical(k: string)
    ensures NormalizeKind(k) in {"person", "org", "project", "concept"}
    ensures k in {"person", "org", "project", "concept"} ==> NormalizeKind(k) == k
  {
    if k in {"person", "org", "project", "concept"} {
      TrimmedStays(k);
      SmallStays(k);
    }
  }

  /** The synonyms of a kind meet in it, and nothing else does. */
  lemma KindSynonyms(k: string)
    ensures var t := Lower(TrimSpace(k));
      && (NormalizeKind(k) == "person" <==> t in {"person", "people", "individual"})
      && (NormalizeKind(k) == "org" <==> t in {"org", "organization", "organisation", "company", "team"})
      && (NormalizeKind(k) == "project" <==> t in {"project", "product", "repo", "repository"})
  {
  }

  /* ---- relation types ---- */

  predicate Allowed(c: char) {
    'a' <= c <= 'z' || '0' <= c <= '9' || c == '_'
  }

  /** A relation type as it is stored. */
  predicate Clean(s: string) {
    s != "" && s[0] != '_' && s[|s| - 1] != '_' && forall i | 0 <= i < |s| :: Allowed(s[i])
  }

  lemma {:induction false} SlugAllowed(s: string)
    ensures forall i | 0 <= i < |Slug(s)| :: Allowed(Slug(s)[i])
  {
    if s == "" {
    } else {
      SlugAllowed(s[1..]);
    }
  }

  lemma {:induction false} TrimmedOfUnderscores(s: string)
    requires forall i | 0 <= i < |s| :: Allowed(s[i])
    ensures TrimUnderscores(s) == "" || Clean(TrimUnderscores(s))
    decreases |s|
  {
    if s != "" && s[0] == '_' {
      TrimmedOfUnderscores(s[1..]);
    } else if s != "" && s[|s| - 1] == '_' {
      TrimmedOfUnderscores(s[..|s| - 1]);
    }
  }

  /** What comes out is empty or clean. */
  lemma RelTypeIsClean(t: string)
    ensures NormalizeRelType(t) == "" || Clean(NormalizeRelType(t))
  {
    SlugAllowed(Lower(TrimSpace(t)));
    TrimmedOfUnderscores(Slug(Lower(TrimSpace(t))));
  }

  lemma {:induction false} SlugAppend(s: string, t: string)
    ensures Slug(s + t) == Slug(s) + Slug(t)
  {
    hide SlugChar;
    if s == "" {
      assert s + t == t;
    } else {
      SlugAppend(s[1..], t);
      assert (s + t)[1..] == s[1..] + t && (s + t)[0] == s[0];
      var first := SlugChar(if s[0] == ' ' || s[0] == '-' then '_' else s[0]);
      assert first + (Slug(s[1..]) + Slug(t)) == first + Slug(s[1..]) + Slug(t);
    }
  }

  lemma {:induction false} SlugOfClean(s: string)
    requires forall i | 0 <= i < |s| :: Allowed(s[i])
    ensures Slug(s) == s
  {
    if s == "" {
    } else {
      SlugOfClean(s[1..]);
      assert s == [s[0]] + s[1..];
    }
  }

  /** What becomes of one character. */
  function Becomes(c: char): string {
    if c == ' ' || c == '-' then "_"
    else if 'A' <= c <= 'Z' then [(c as int + 32) as char]
    else if Allowed(c) then [c]
    else ""
  }

  /** Between clean texts a space or hyphen becomes an underscore, a capital its small letter, and what is not allowed goes. */
  lemma RelTypeOfChar(a: string, c: char, b: string)
    requires Clean(a) && Clean(b)
    ensures NormalizeRelType(a + [c] + b) == a + Becomes(c) + b
  {
    hide Slug, TrimUnderscores, TrimSpace;
    var s := a + [c] + b;
    assert s[0] == a[0] && s[|s| - 1] == b[|b| - 1];
    TrimmedStays(s);
    assert Lower(s) == a + [LowerChar(c)] + b;
    SlugAppend(a + [LowerChar(c)], b);
    SlugAppend(a, [LowerChar(c)]);
    SlugOfClean(a);
    SlugOfClean(b);
    SlugOfOne(LowerChar(c));
    var r := a + Becomes(c) + b;
    assert r[0] == a[0] && r[|r| - 1] == b[|b| - 1];
    NothingToTrim(r);
  }

  lemma SlugOfOne(c: char)
    requires !('A' <= c <= 'Z')
    ensures Slug([c]) == Becomes(c)
  {
    assert [c][1..] == "";
  }

  lemma NothingToTrim(s: string)
    requires s != "" && s[0] != '_' && s[|s| - 1] != '_'
    ensures TrimUnderscores(s) == s
  {
  }

  /** A clean type stays as it is. */
  lemma RelTypeKeepsClean(s: string)
    requires Clean(s)
    ensures NormalizeRelType(s) == s
  {
    TrimmedStays(s);
    SmallStays(s);
    SlugOfClean(s);
    NothingToTrim(s);
  }
}
