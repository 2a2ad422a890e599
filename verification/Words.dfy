/** Whitespace-separated words, and what trimming, splitting and joining do to them. */
module Words {

  /** unicode.IsSpace. */
  predicate IsSpace(c: char) {
    || c in {' ', '\t', '\n', '\r', '\U{000B}', '\U{000C}', '\U{0085}', '\U{00A0}', '\U{1680}'}
    || '\U{2000}' <= c <= '\U{200A}'
    || c in {'\U{2028}', '\U{2029}', '\U{202F}', '\U{205F}', '\U{3000}'}
  }

  predicate AllSpace(s: string) {
    forall i | 0 <= i < |s| :: IsSpace(s[i])
  }

  function WordLength(s: string): (n: nat)
    ensures n <= |s| && (forall i | 0 <= i < n :: !IsSpace(s[i])) && (n < |s| ==> IsSpace(s[n]))
  {
    if s == "" || IsSpace(s[0]) then 0 else 1 + WordLength(s[1..])
  }

  /** strings.Fields. */
  function Fields(s: string): (r: seq<string>)
    decreases |s|
  {
    if s == "" then []
    else if IsSpace(s[0]) then Fields(s[1..])
    else [s[..WordLength(s)]] + Fields(s[WordLength(s)..])
  }

  predicate IsWord(w: string) {
    w != "" && forall i | 0 <= i < |w| :: !IsSpace(w[i])
  }

  lemma {:induction false} FieldsAreWords(s: string)
    ensures forall i | 0 <= i < |Fields(s)| :: IsWord(Fields(s)[i])
    decreases |s|
  {
    if s == "" {
    } else {
      if IsSpace(s[0]) { FieldsAreWords(s[1..]); } else { FieldsAreWords(s[WordLength(s)..]); }
    }
  }

  lemma {:induction false} WordLengthIs(s: string, n: nat)
    requires n <= |s| && (forall i | 0 <= i < n :: !IsSpace(s[i])) && (n < |s| ==> IsSpace(s[n]))
    ensures WordLength(s) == n
  {
    if n == 0 {
    } else {
      WordLengthIs(s[1..], n - 1);
    }
  }

  /** A space separates words. */
  lemma {:induction false} FieldsAtSpace(a: string, c: char, b: string)
    requires IsSpace(c)
    ensures Fields(a + [c] + b) == Fields(a) + Fields(b)
    decreases |a|
  {
    hide IsSpace, WordLength;
    var s := a + [c] + b;
    if a == "" {
      assert s[1..] == b;
    } else if IsSpace(a[0]) {
      FieldsAtSpace(a[1..], c, b);
      assert s[1..] == a[1..] + [c] + b;
    } else {
      var n := WordLength(a);
      assert s[n] == if n < |a| then a[n] else c;
      WordLengthIs(s, n);
      FieldsAtSpace(a[n..], c, b);
      assert s[..n] == a[..n] && s[n..] == a[n..] + [c] + b;
    }
  }

  lemma {:induction false} LeadingSpace(sep: string, b: string)
    requires AllSpace(sep)
    ensures Fields(sep + b) == Fields(b)
  {
    if sep == "" {
      assert sep + b == b;
    } else {
      LeadingSpace(sep[1..], b);
      assert (sep + b)[1..] == sep[1..] + b;
    }
  }

  lemma FieldsAtSeparator(a: string, sep: string, b: string)
    requires sep != "" && AllSpace(sep)
    ensures Fields(a + sep + b) == Fields(a) + Fields(b)
  {
    assert a + sep + b == a + [sep[0]] + (sep[1..] + b);
    FieldsAtSpace(a, sep[0], sep[1..] + b);
    LeadingSpace(sep[1..], b);
  }

  /* ---- trimming ---- */

  function TrimLeft(s: string): string {
    if s != "" && IsSpace(s[0]) then TrimLeft(s[1..]) else s
  }

  function TrimRight(s: string): string {
    if s != "" && IsSpace(s[|s| - 1]) then TrimRight(s[..|s| - 1]) else s
  }

  function TrimSpace(s: string): string {
    TrimRight(TrimLeft(s))
  }

  lemma {:induction false} TrimLeftKeepsWords(s: string)
    ensures Fields(TrimLeft(s)) == Fields(s)
  {
    if s != "" && IsSpace(s[0]) { TrimLeftKeepsWords(s[1..]); }
  }

  lemma {:induction false} TrimRightKeepsWords(s: string)
    ensures Fields(TrimRight(s)) == Fields(s)
  {
    if s != "" && IsSpace(s[|s| - 1]) {
      var t := s[..|s| - 1];
      TrimRightKeepsWords(t);
      FieldsAtSpace(t, s[|s| - 1], "");
      assert s == t + [s[|s| - 1]] + "";
    }
  }

  lemma TrimKeepsWords(s: string)
    ensures Fields(TrimSpace(s)) == Fields(s)
  {
    TrimLeftKeepsWords(s);
    TrimRightKeepsWords(TrimLeft(s));
  }

  /** A text without words trims to nothing, and only such a text does. */
  lemma BlankIffNoWords(s: string)
    ensures TrimSpace(s) == "" <==> Fields(s) == []
  {
    TrimKeepsWords(s);
    TrimSpaceStart(s);
  }

  lemma {:induction false} TrimSpaceStart(s: string)
    ensures TrimSpace(s) != "" ==> !IsSpace(TrimSpace(s)[0])
  {
    TrimLeftStart(s);
    TrimRightStart(TrimLeft(s));
  }

  lemma {:induction false} TrimLeftStart(s: string)
    ensures TrimLeft(s) != "" ==> !IsSpace(TrimLeft(s)[0])
  {
    if s != "" && IsSpace(s[0]) { TrimLeftStart(s[1..]); }
  }

  lemma {:induction false} TrimRightStart(s: string)
    ensures TrimRight(s) <= s
  {
    if s != "" && IsSpace(s[|s| - 1]) { TrimRightStart(s[..|s| - 1]); }
  }

  lemma {:induction false} TrimRightEnd(s: string)
    ensures TrimRight(s) != "" ==> !IsSpace(TrimRight(s)[|TrimRight(s)| - 1])
  {
    if s != "" && IsSpace(s[|s| - 1]) { TrimRightEnd(s[..|s| - 1]); }
  }

  /** Starts and ends with something other than space. */
  predicate IsTrimmed(s: string) {
    s != "" && !IsSpace(s[0]) && !IsSpace(s[|s| - 1])
  }

  lemma TrimSpaceTrims(s: string)
    ensures TrimSpace(s) != "" ==> IsTrimmed(TrimSpace(s))
  {
    TrimSpaceStart(s);
    TrimRightEnd(TrimLeft(s));
  }

  lemma {:induction false} TrimLeftCuts(s: string) returns (left: string)
    ensures AllSpace(left) && s == left + TrimLeft(s)
  {
    left := "";
    if s != "" && IsSpace(s[0]) {
      var rest := TrimLeftCuts(s[1..]);
      left := [s[0]] + rest;
      assert s == [s[0]] + s[1..];
    }
  }

  lemma {:induction false} TrimRightCuts(s: string) returns (right: string)
    ensures AllSpace(right) && s == TrimRight(s) + right
  {
    right := "";
    if s != "" && IsSpace(s[|s| - 1]) {
      var rest := TrimRightCuts(s[..|s| - 1]);
      right := rest + [s[|s| - 1]];
      assert s == s[..|s| - 1] + [s[|s| - 1]];
    }
  }

  /** Trimming cuts space off both ends and stops at anything else. */
  lemma TrimSpaceCuts(s: string) returns (left: string, right: string)
    ensures AllSpace(left) && AllSpace(right) && s == left + TrimSpace(s) + right
    ensures TrimSpace(s) == "" || IsTrimmed(TrimSpace(s))
  {
    hide IsSpace;
    left := TrimLeftCuts(s);
    right := TrimRightCuts(TrimLeft(s));
    TrimSpaceTrims(s);
    assert left + (TrimSpace(s) + right) == left + TrimSpace(s) + right;
  }

  lemma {:induction false} PrefixSurvivesTrimRight(h: string, s: string)
    requires IsTrimmed(h) && h <= s
    ensures h <= TrimRight(s)
  {
    if IsSpace(s[|s| - 1]) {
      assert |s| == |h| ==> s == h;
      PrefixSurvivesTrimRight(h, s[..|s| - 1]);
    }
  }

  /** Trimming leaves a trimmed beginning in place. */
  lemma PrefixSurvivesTrim(h: string, s: string)
    requires IsTrimmed(h) && h <= s
    ensures h <= TrimSpace(s)
  {
    assert s[0] == h[0];
    PrefixSurvivesTrimRight(h, s);
  }

  /** The trimmed first line stays at the front when the lines behind it are trimmed along. */
  lemma {:induction false} TrimOfFirstLine(line: string, rest: string)
    requires TrimSpace(line) != ""
    ensures TrimSpace(line) <= TrimSpace(line + rest)
  {
    if IsSpace(line[0]) {
      TrimOfFirstLine(line[1..], rest);
      assert (line + rest)[1..] == line[1..] + rest;
    } else {
      TrimRightStart(line);
      TrimSpaceTrims(line);
      PrefixSurvivesTrim(TrimSpace(line), line + rest);
    }
  }

  /* ---- splitting and joining ---- */

  /** The words of several texts, one after the other. */
  function FieldsOfAll(parts: seq<string>): seq<string> {
    if parts == [] then [] else FieldsOfAll(parts[..|parts| - 1]) + Fields(parts[|parts| - 1])
  }

  lemma {:induction false} FieldsOfAllAppend(a: seq<string>, b: seq<string>)
    ensures FieldsOfAll(a + b) == FieldsOfAll(a) + FieldsOfAll(b)
  {
    if b == [] {
      assert a + b == a;
    } else {
      var m := |b| - 1;
      FieldsOfAllAppend(a, b[..m]);
      assert (a + b)[..|a + b| - 1] == a + b[..m];
    }
  }

  lemma FieldsOfOne(s: string)
    ensures FieldsOfAll([s]) == Fields(s)
  {
    assert [s][..0] == [];
  }

  /** strings.Index, with |s| for not found. */
  function Index(s: string, sep: string): (i: nat)
    requires sep != ""
    ensures i <= |s| && (i < |s| ==> i + |sep| <= |s| && s[i..i + |sep|] == sep)
  {
    if |s| < |sep| then |s|
    else if s[..|sep|] == sep then 0
    else
      var i := Index(s[1..], sep);
      assert i < |s[1..]| ==> s[1..][i..i + |sep|] == s[i + 1..i + 1 + |sep|];
      1 + i
  }

  /** strings.Split. */
  function Split(s: string, sep: string): (parts: seq<string>)
    requires sep != ""
    ensures parts != []
    decreases |s|
  {
    var i := Index(s, sep);
    if i == |s| then [s] else [s[..i]] + Split(s[i + |sep|..], sep)
  }

  /** Splitting at whitespace keeps the words. */
  lemma {:induction false} SplitKeepsWords(s: string, sep: string)
    requires sep != "" && AllSpace(sep)
    ensures FieldsOfAll(Split(s, sep)) == Fields(s)
    decreases |s|
  {
    hide Fields, FieldsOfAll, Index;
    var i := Index(s, sep);
    if i == |s| {
      FieldsOfOne(s);
    } else {
      var rest := s[i + |sep|..];
      SplitKeepsWords(rest, sep);
      FieldsAtSeparator(s[..i], sep, rest);
      assert s == s[..i] + sep + rest;
      FieldsOfAllAppend([s[..i]], Split(rest, sep));
      FieldsOfOne(s[..i]);
    }
  }

  /** strings.Join. */
  function Join(parts: seq<string>, sep: string): string {
    if parts == [] then "" else if |parts| == 1 then parts[0] else parts[0] + sep + Join(parts[1..], sep)
  }

  /** The separator stands at i. */
  predicate At(s: string, sep: string, i: int) {
    0 <= i <= |s| - |sep| && s[i..i + |sep|] == sep
  }

  /** The first place of the separator. */
  lemma {:induction false} IndexIsFirst(s: string, sep: string)
    requires sep != ""
    ensures Index(s, sep) < |s| ==> At(s, sep, Index(s, sep))
    ensures forall j | 0 <= j < Index(s, sep) :: !At(s, sep, j)
  {
    if |s| >= |sep| && s[..|sep|] != sep {
      IndexIsFirst(s[1..], sep);
      forall j ensures At(s[1..], sep, j - 1) <==> j > 0 && At(s, sep, j) {
        AtBehindFirst(s, sep, j);
      }
      assert !At(s, sep, 0);
    }
  }

  lemma AtBehindFirst(s: string, sep: string, j: int)
    requires s != ""
    ensures At(s[1..], sep, j - 1) <==> j > 0 && At(s, sep, j)
  {
    if 0 < j <= |s| - |sep| {
      var i := j - 1;
      assert s[1..][i..i + |sep|] == s[i + 1..i + 1 + |sep|];
    }
  }

  /** Joining undoes splitting, and the separator is in no part. */
  lemma {:induction false} JoinUndoesSplit(s: string, sep: string)
    requires sep != ""
    ensures Join(Split(s, sep), sep) == s
    ensures forall k, j | 0 <= k < |Split(s, sep)| :: !At(Split(s, sep)[k], sep, j)
    decreases |s|
  {
    var i := Index(s, sep);
    IndexIsFirst(s, sep);
    hide Index, At;
    if i == |s| {
      NotAtEnd(s, sep);
    } else {
      var rest := s[i + |sep|..];
      JoinUndoesSplit(rest, sep);
      assert s == s[..i] + sep + rest;
      NotInFront(s, sep, i);
    }
  }

  lemma NotAtEnd(s: string, sep: string)
    requires sep != "" && forall j | 0 <= j < |s| :: !At(s, sep, j)
    ensures forall j :: !At(s, sep, j)
  {
  }

  lemma NotInFront(s: string, sep: string, i: nat)
    requires sep != "" && i <= |s| && forall j | 0 <= j < i :: !At(s, sep, j)
    ensures forall j :: !At(s[..i], sep, j)
  {
    forall j | 0 <= j <= i - |sep| ensures !At(s[..i], sep, j) {
      assert !At(s, sep, j) && s[..i][j..j + |sep|] == s[j..j + |sep|];
    }
  }

  function JoinWords(ws: seq<string>): string {
    Join(ws, " ")
  }

  lemma WordIsOneField(w: string)
    requires IsWord(w)
    ensures Fields(w) == [w]
  {
    WordLengthIs(w, |w|);
    assert w[..|w|] == w && w[|w|..] == "";
  }

  lemma {:induction false} FieldsUndoJoin(ws: seq<string>)
    requires forall i | 0 <= i < |ws| :: IsWord(ws[i])
    ensures Fields(JoinWords(ws)) == ws
  {
    if ws == [] {
    } else {
      WordIsOneField(ws[0]);
      if |ws| > 1 {
        FieldsUndoJoin(ws[1..]);
        FieldsAtSpace(ws[0], ' ', JoinWords(ws[1..]));
      }
    }
  }
}
