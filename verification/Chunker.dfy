/** Splitting files into chunks and enforcing the token limit. Text is a sequence of code points. */
module Chunker {
  import opened Words

  datatype Chunk = Chunk(text: string, sourceFile: string, header: string, index: int)

  /** Words times 1.3, rounded down. */
  function EstTokens(text: string): (n: nat)
    ensures 10 * n <= 13 * |Fields(text)| < 10 * n + 10
  {
    |Fields(text)| * 13 / 10
  }

  ghost function TextsOf(cs: seq<Chunk>): (r: seq<string>)
    ensures |r| == |cs| && forall i | 0 <= i < |cs| :: r[i] == cs[i].text
  {
    seq(|cs|, i requires 0 <= i < |cs| => cs[i].text)
  }

  ghost function WordsOf(cs: seq<Chunk>): seq<string> {
    FieldsOfAll(TextsOf(cs))
  }

  lemma WordsOfAppend(a: seq<Chunk>, b: seq<Chunk>)
    ensures WordsOf(a + b) == WordsOf(a) + WordsOf(b)
  {
    assert TextsOf(a + b) == TextsOf(a) + TextsOf(b);
    FieldsOfAllAppend(TextsOf(a), TextsOf(b));
  }

  lemma WordsOfOne(c: Chunk)
    ensures WordsOf([c]) == Fields(c.text)
  {
    assert TextsOf([c]) == [c.text];
    FieldsOfOne(c.text);
  }

  /** The chunks carry the source and header of c and consecutive indices from its index on. */
  ghost predicate Numbered(cs: seq<Chunk>, c: Chunk) {
    forall i | 0 <= i < |cs| :: cs[i].index == c.index + i && cs[i].sourceFile == c.sourceFile && cs[i].header == c.header
  }

  /* ---- sentences ---- */

  /** A period before a space or a newline. */
  predicate EndsSentence(text: string, i: nat) {
    i + 1 < |text| && text[i] == '.' && (text[i + 1] == ' ' || text[i + 1] == '\n')
  }

  function SentenceEnd(text: string): (i: nat)
    ensures i <= |text| && (i < |text| ==> EndsSentence(text, i)) && forall j | 0 <= j < i :: !EndsSentence(text, j)
  {
    if text == "" then 0
    else if EndsSentence(text, 0) then 0
    else
      var i := SentenceEnd(text[1..]);
      assert forall j | 0 < j < |text| :: EndsSentence(text, j) <==> EndsSentence(text[1..], j - 1);
      1 + i
  }

  /** The sentences of text, without the space or newline that ends each. */
  function SentencesFrom(text: string): seq<string>
    decreases |text|
  {
    var i := SentenceEnd(text);
    if i < |text| then [text[..i + 1]] + SentencesFrom(text[i + 2..]) else if text == "" then [] else [text]
  }

  function Sentences(text: string): seq<string> {
    if SentencesFrom(text) == [] then [text] else SentencesFrom(text)
  }

  lemma {:induction false} SentencesKeepWords(text: string)
    ensures FieldsOfAll(SentencesFrom(text)) == Fields(text)
    decreases |text|
  {
    hide Fields, FieldsOfAll;
    var i := SentenceEnd(text);
    NoFields();
    if i < |text| {
      var sentence, rest := text[..i + 1], text[i + 2..];
      SentencesKeepWords(rest);
      assert text == sentence + [text[i + 1]] + rest;
      FieldsAtSpace(sentence, text[i + 1], rest);
      FieldsOfAllAppend([sentence], SentencesFrom(rest));
      FieldsOfOne(sentence);
    } else if text != "" {
      FieldsOfOne(text);
    }
  }

  /**
   * The first part ends with a period, behind which text goes on with a space or newline and the other parts; or it is the
   * whole text. In no part is there such a period before the end.
   */
  ghost predicate CutAtPeriods(text: string, parts: seq<string>)
    decreases |parts|
  {
    if parts == [] then text == ""
    else
      var s := parts[0];
      && s != "" && s <= text && (forall j | 0 <= j < |s| - 1 :: text[j] == '.' ==> text[j + 1] != ' ' && text[j + 1] != '\n')
      && if s == text then |parts| == 1
         else s[|s| - 1] == '.' && text[|s|] in {' ', '\n'} && CutAtPeriods(text[|s| + 1..], parts[1..])
  }

  /** The sentences are what the text is cut into at every period before a space or newline, and nowhere else. */
  lemma {:induction false} SentencesCut(text: string)
    ensures CutAtPeriods(text, SentencesFrom(text))
    decreases |text|
  {
    var i := SentenceEnd(text);
    forall j | 0 <= j < i && j < |text| - 1 ensures text[j] == '.' ==> text[j + 1] != ' ' && text[j + 1] != '\n' {
      assert !EndsSentence(text, j);
    }
    hide SentenceEnd;
    var parts := SentencesFrom(text);
    if i < |text| {
      SentencesCut(text[i + 2..]);
      assert parts[0] == text[..i + 1] && parts[1..] == SentencesFrom(text[i + 2..]);
    } else if text != "" {
      assert parts == [text];
    }
  }

  lemma NoFields()
    ensures Fields("") == [] && FieldsOfAll([]) == []
  {
  }

  /** The sentence that starts at `start` ends at i. */
  lemma SentenceEndIs(text: string, start: nat, i: nat)
    requires start <= i <= |text| && (i < |text| ==> EndsSentence(text, i))
    requires forall j | start <= j < i :: !EndsSentence(text, j)
    ensures SentenceEnd(text[start..]) == i - start
  {
    var rest, e := text[start..], SentenceEnd(text[start..]);
    assert e < |rest| ==> EndsSentence(text, start + e);
    assert i < |text| ==> EndsSentence(rest, i - start);
  }

  lemma EndsWithin(text: string, i: nat)
    requires EndsSentence(text, i)
    ensures i + 1 < |text|
  {
  }

  lemma SentenceCut(text: string, start: nat, i: nat)
    requires start <= i && EndsSentence(text, i) && forall j | start <= j < i :: !EndsSentence(text, j)
    ensures SentencesFrom(text[start..]) == [text[start..i + 1]] + SentencesFrom(text[i + 2..])
  {
    hide SentenceEnd, EndsSentence;
    EndsWithin(text, i);
    SentenceEndIs(text, start, i);
    assert text[start..][..i - start + 1] == text[start..i + 1] && text[start..][i - start + 2..] == text[i + 2..];
  }

  method SplitSentences(text: string) returns (result: seq<string>)
    ensures result == Sentences(text)
    ensures if text == "" then result == [""] else CutAtPeriods(text, result)
  {
    SentencesCut(text);
    hide SentencesFrom, SentenceEnd, CutAtPeriods;
    result := [];
    var start: nat, i: nat := 0, 0;
    assert text[0..] == text;
    while i < |text| - 1
      invariant start <= i && start <= |text|
      invariant result + SentencesFrom(text[start..]) == SentencesFrom(text)
      invariant forall j | start <= j < i :: !EndsSentence(text, j)
      decreases |text| - i
    {
      if text[i] == '.' && (text[i + 1] == ' ' || text[i + 1] == '\n') {
        SentenceCut(text, start, i);
        result := result + [text[start..i + 1]];
        start := i + 2;
        i := i + 1; // skip the space
      }
      i := i + 1;
    }
    LastSentence(text, start);
    NoneOnlyOfNothing(text);
    if start < |text| {
      result := result + [text[start..]];
    }
    if |result| == 0 {
      result := result + [text];
    }
  }

  lemma NoneOnlyOfNothing(text: string)
    ensures SentencesFrom(text) == [] <==> text == ""
  {
  }

  lemma LastSentence(text: string, start: nat)
    requires start <= |text| && forall j | start <= j < |text| - 1 :: !EndsSentence(text, j)
    ensures SentencesFrom(text[start..]) == if start < |text| then [text[start..]] else []
  {
    SentenceEndIs(text, start, |text|);
  }

  /* ---- packing pieces up to the limit ---- */

  /** The text is one piece, or its estimate is at most one over the limit. */
  ghost predicate Fits(text: string, pieces: seq<string>, maxTokens: int) {
    EstTokens(text) <= maxTokens + 1 || exists p :: p in pieces && text == TrimSpace(p)
  }

  /** The later text begins with a piece that would have taken the earlier one over the limit. */
  ghost predicate Broken(earlier: string, later: string, pieces: seq<string>, maxTokens: int) {
    exists p :: p in pieces && TrimSpace(p) != "" && TrimSpace(p) <= later && EstTokens(earlier) + EstTokens(TrimSpace(p)) > maxTokens
  }

  /** Chunks packed from pieces: each fits, and a new one was started only where the limit forced it. */
  ghost predicate Packed(cs: seq<Chunk>, pieces: seq<string>, maxTokens: int) {
    && (forall i | 0 <= i < |cs| :: Fits(cs[i].text, pieces, maxTokens) && Fields(cs[i].text) != [])
    && (forall i | 0 < i < |cs| :: Broken(cs[i - 1].text, cs[i].text, pieces, maxTokens))
  }

  /** The text in hand: nothing, or trimmed, fitting, and begun where the last chunk had to end. */
  ghost predicate InHand(current: string, result: seq<Chunk>, pieces: seq<string>, maxTokens: int) {
    current != "" ==>
      && IsTrimmed(current) && Fields(current) != [] && Fits(current, pieces, maxTokens)
      && (result != [] ==> Broken(result[|result| - 1].text, current, pieces, maxTokens))
  }

  /** The pieces that are not blank, trimmed, with the glue between them. */
  ghost function Joined(pieces: seq<string>, glue: string): string {
    if pieces == [] then ""
    else
      var before, p := Joined(pieces[..|pieces| - 1], glue), TrimSpace(pieces[|pieces| - 1]);
      if p == "" then before else if before == "" then p else before + glue + p
  }

  /** Each text joins the next stretch of the pieces, and together they use them all. */
  ghost predicate CutInto(texts: seq<string>, pieces: seq<string>, glue: string)
    decreases |texts|
  {
    if texts == [] then Joined(pieces, glue) == ""
    else
      var m := |texts| - 1;
      exists k | 0 <= k <= |pieces| :: CutInto(texts[..m], pieces[..k], glue) && texts[m] == Joined(pieces[k..], glue)
  }

  /** The chunks so far are cut from the first k pieces; the text in hand joins the next, up to i. */
  ghost predicate Cutting(pieces: seq<string>, k: nat, i: nat, result: seq<Chunk>, current: string, glue: string) {
    && k <= i <= |pieces| && (result == [] ==> k == 0)
    && CutInto(TextsOf(result), pieces[..k], glue) && current == Joined(pieces[k..i], glue)
  }

  lemma CutHere(pieces: seq<string>, k: nat, i: nat, result: seq<Chunk>, current: string, glue: string, chunk: Chunk)
    requires Cutting(pieces, k, i, result, current, glue) && chunk.text == current
    ensures CutInto(TextsOf(result + [chunk]), pieces[..i], glue)
    ensures Cutting(pieces, i, i, result + [chunk], "", glue)
  {
    hide Joined;
    var texts := TextsOf(result + [chunk]);
    assert texts[..|result|] == TextsOf(result) && pieces[..i][..k] == pieces[..k] && pieces[..i][k..] == pieces[k..i];
    assert pieces[i..i] == [];
    NothingJoined(glue);
  }

  lemma NothingJoined(glue: string)
    ensures Joined([], glue) == ""
  {
  }

  lemma JoinNext(pieces: seq<string>, k: nat, i: nat, result: seq<Chunk>, current: string, glue: string)
    requires Cutting(pieces, k, i, result, current, glue) && i < |pieces|
    ensures var p := TrimSpace(pieces[i]);
      Cutting(pieces, k, i + 1, result, if p == "" then current else if current == "" then p else current + glue + p, glue)
  {
    hide TrimSpace;
    assert pieces[k..i + 1][..i - k] == pieces[k..i] && pieces[k..i + 1][i - k] == pieces[i];
  }

  /** Where packing is: the chunks so far and the text in hand hold the words of the first i pieces. */
  ghost predicate Packing(pieces: seq<string>, i: nat, result: seq<Chunk>, current: string, c: Chunk, maxTokens: int) {
    && i <= |pieces|
    && WordsOf(result) + Fields(current) == FieldsOfAll(pieces[..i])
    && Numbered(result, c) && Packed(result, pieces, maxTokens) && InHand(current, result, pieces, maxTokens)
  }

  lemma TrimOfTrimmed(s: string)
    requires IsTrimmed(s)
    ensures TrimSpace(s) == s
  {
  }

  lemma FlushKeepsPacking(pieces: seq<string>, i: nat, result: seq<Chunk>, current: string, c: Chunk, maxTokens: int)
    requires Packing(pieces, i, result, current, c, maxTokens) && current != ""
    ensures TrimSpace(current) == current
    ensures Packing(pieces, i, result + [Chunk(current, c.sourceFile, c.header, c.index + |result|)], "", c, maxTokens)
  {
    hide Fields, FieldsOfAll, WordsOf, Fits, Broken, TrimSpace, IsTrimmed;
    var chunk := Chunk(current, c.sourceFile, c.header, c.index + |result|);
    TrimOfTrimmed(current);
    WordsOfAppend(result, [chunk]);
    WordsOfOne(chunk);
    NoFields();
    assert WordsOf(result + [chunk]) + [] == WordsOf(result + [chunk]);
  }

  lemma EstTokensOfBoth(a: string, b: string, ab: string)
    requires Fields(ab) == Fields(a) + Fields(b)
    ensures EstTokens(ab) <= EstTokens(a) + EstTokens(b) + 1
  {
  }

  lemma PieceWords(pieces: seq<string>, i: nat)
    requires i < |pieces|
    ensures FieldsOfAll(pieces[..i + 1]) == FieldsOfAll(pieces[..i]) + Fields(TrimSpace(pieces[i]))
    ensures TrimSpace(pieces[i]) == "" <==> Fields(TrimSpace(pieces[i])) == []
    ensures TrimSpace(pieces[i]) != "" ==> IsTrimmed(TrimSpace(pieces[i]))
  {
    hide Fields, FieldsOfAll, TrimSpace, IsTrimmed;
    TrimKeepsWords(pieces[i]);
    BlankIffNoWords(pieces[i]);
    TrimSpaceTrims(pieces[i]);
    assert pieces[..i + 1] == pieces[..i] + [pieces[i]];
    FieldsOfAllAppend(pieces[..i], [pieces[i]]);
    FieldsOfOne(pieces[i]);
  }

  /** A first piece: the start of a text in hand. */
  lemma StartKeepsPacking(pieces: seq<string>, i: nat, result: seq<Chunk>, c: Chunk, maxTokens: int)
    requires Packing(pieces, i, result, "", c, maxTokens) && i < |pieces| && TrimSpace(pieces[i]) != ""
    requires result == [] || EstTokens(result[|result| - 1].text) + EstTokens(TrimSpace(pieces[i])) > maxTokens
    ensures Packing(pieces, i + 1, result, TrimSpace(pieces[i]), c, maxTokens)
  {
    hide Fields, FieldsOfAll, TrimSpace, WordsOf, IsTrimmed, EstTokens, Numbered, Packed;
    PieceWords(pieces, i);
    NoFields();
    assert pieces[i] in pieces;
    assert WordsOf(result) + [] == WordsOf(result);
  }

  /** A further piece that stays within the limit. */
  lemma AddKeepsPacking(pieces: seq<string>, i: nat, result: seq<Chunk>, current: string, c: Chunk, maxTokens: int, glue: string)
    requires Packing(pieces, i, result, current, c, maxTokens) && i < |pieces| && AllSpace(glue) && glue != ""
    requires current != "" && TrimSpace(pieces[i]) != "" && EstTokens(current) + EstTokens(TrimSpace(pieces[i])) <= maxTokens
    ensures Packing(pieces, i + 1, result, current + glue + TrimSpace(pieces[i]), c, maxTokens)
  {
    hide Fields, FieldsOfAll, TrimSpace, WordsOf, AllSpace, EstTokens, Numbered, Packed;
    var p := TrimSpace(pieces[i]);
    var longer := current + glue + p;
    PieceWords(pieces, i);
    FieldsAtSeparator(current, glue, p);
    EstTokensOfBoth(current, p, longer);
    assert longer[0] == current[0] && longer[|longer| - 1] == p[|p| - 1];
    if result != [] {
      var q :| q in pieces && TrimSpace(q) != "" && TrimSpace(q) <= current
        && EstTokens(result[|result| - 1].text) + EstTokens(TrimSpace(q)) > maxTokens;
      assert TrimSpace(q) <= longer;
    }
    assert WordsOf(result) + (Fields(current) + Fields(p)) == WordsOf(result) + Fields(current) + Fields(p);
  }

  lemma SkipKeepsPacking(pieces: seq<string>, i: nat, result: seq<Chunk>, current: string, c: Chunk, maxTokens: int)
    requires Packing(pieces, i, result, current, c, maxTokens) && i < |pieces| && TrimSpace(pieces[i]) == ""
    ensures Packing(pieces, i + 1, result, current, c, maxTokens)
  {
    hide Fields, FieldsOfAll, TrimSpace, WordsOf;
    PieceWords(pieces, i);
    assert FieldsOfAll(pieces[..i]) + [] == FieldsOfAll(pieces[..i]);
  }

  /** Joins pieces with the glue into chunks, starting a new one where the next piece would exceed the limit. */
  method Pack(pieces: seq<string>, glue: string, c: Chunk, maxTokens: int) returns (result: seq<Chunk>)
    requires AllSpace(glue) && glue != ""
    ensures WordsOf(result) == FieldsOfAll(pieces) && Numbered(result, c) && Packed(result, pieces, maxTokens)
    ensures CutInto(TextsOf(result), pieces, glue)
  {
    hide Fields, FieldsOfAll, TrimSpace, AllSpace, EstTokens, CutInto, Joined, Packing, Cutting, Packed, Numbered;
    result := [];
    var current := "";
    var idx := c.index;
    PackingStarts(pieces, c, maxTokens, glue);
    ghost var k: nat := 0;
    for i := 0 to |pieces|
      invariant Packing(pieces, i, result, current, c, maxTokens) && idx == c.index + |result|
      invariant Cutting(pieces, k, i, result, current, glue)
      invariant current == "" ==> result == []
    {
      var p := TrimSpace(pieces[i]);
      if p == "" {
        SkipKeepsPacking(pieces, i, result, current, c, maxTokens);
        JoinNext(pieces, k, i, result, current, glue);
        continue;
      }
      if EstTokens(current) + EstTokens(p) > maxTokens && |current| > 0 {
        FlushKeepsPacking(pieces, i, result, current, c, maxTokens);
        var chunk := Chunk(TrimSpace(current), c.sourceFile, c.header, idx);
        CutHere(pieces, k, i, result, current, glue, chunk);
        result := result + [chunk];
        k := i;
        idx := idx + 1;
        current := "";
      }
      if current == "" {
        StartKeepsPacking(pieces, i, result, c, maxTokens);
      } else {
        AddKeepsPacking(pieces, i, result, current, c, maxTokens, glue);
      }
      JoinNext(pieces, k, i, result, current, glue);
      if |current| > 0 {
        current := current + glue;
      }
      assert "" + p == p;
      current := current + p;
    }
    if |current| > 0 {
      FlushKeepsPacking(pieces, |pieces|, result, current, c, maxTokens);
      var chunk := Chunk(TrimSpace(current), c.sourceFile, c.header, idx);
      CutHere(pieces, k, |pieces|, result, current, glue, chunk);
      result := result + [chunk];
      k := |pieces|;
    }
    PackingEnds(pieces, k, result, c, maxTokens, glue);
  }

  lemma PackingEnds(pieces: seq<string>, k: nat, result: seq<Chunk>, c: Chunk, maxTokens: int, glue: string)
    requires Packing(pieces, |pieces|, result, "", c, maxTokens) && Cutting(pieces, k, |pieces|, result, "", glue)
    requires result != [] ==> k == |pieces|
    ensures WordsOf(result) == FieldsOfAll(pieces) && Numbered(result, c) && Packed(result, pieces, maxTokens)
    ensures CutInto(TextsOf(result), pieces, glue)
  {
    hide Fields, FieldsOfAll, TrimSpace, Packed, Numbered;
    NoFields();
    assert WordsOf(result) + [] == WordsOf(result);
    assert pieces[..|pieces|] == pieces == pieces[0..|pieces|];
  }

  lemma PackingStarts(pieces: seq<string>, c: Chunk, maxTokens: int, glue: string)
    ensures Packing(pieces, 0, [], "", c, maxTokens) && Cutting(pieces, 0, 0, [], "", glue)
  {
    assert TextsOf([]) == [];
    assert pieces[..0] == [] == pieces[0..0];
  }

  /* ---- hard split ---- */

  /** Words with single spaces between them, `size` of them in each chunk but the last. */
  ghost predicate Even(result: seq<Chunk>, size: int) {
    && (forall j | 0 <= j < |result| :: 0 < |Fields(result[j].text)| <= size && result[j].text == JoinWords(Fields(result[j].text)))
    && (forall j | 0 <= j < |result| - 1 :: |Fields(result[j].text)| == size)
  }

  lemma EvenAppend(result: seq<Chunk>, chunk: Chunk, size: int)
    requires Even(result, size) && (result != [] ==> |Fields(result[|result| - 1].text)| == size)
    requires 0 < |Fields(chunk.text)| <= size && chunk.text == JoinWords(Fields(chunk.text))
    ensures Even(result + [chunk], size)
  {
    hide Fields, JoinWords;
  }

  /** Another chunk of the next words keeps the split even if the last one before was full. */
  lemma EvenNext(result: seq<Chunk>, chunk: Chunk, ws: seq<string>, size: int)
    requires Even(result, size) && (result != [] ==> |Fields(result[|result| - 1].text)| == size)
    requires chunk.text == JoinWords(ws) && 0 < |ws| <= size && forall i | 0 <= i < |ws| :: IsWord(ws[i])
    ensures Even(result + [chunk], size) && Fields(chunk.text) == ws && WordsOf(result + [chunk]) == WordsOf(result) + ws
  {
    hide Fields, JoinWords, WordsOf, IsWord, Even;
    FieldsUndoJoin(ws);
    EvenAppend(result, chunk, size);
    WordsOfAppend(result, [chunk]);
    WordsOfOne(chunk);
  }

  method HardSplit(words: seq<string>, targetWords: int, c: Chunk) returns (result: seq<Chunk>)
    requires targetWords > 0 && forall i | 0 <= i < |words| :: IsWord(words[i])
    ensures WordsOf(result) == words && Numbered(result, c) && Even(result, targetWords)
  {
    hide Fields, FieldsOfAll, WordsOf, JoinWords, IsWord;
    result := [];
    var idx := c.index;
    var i := 0;
    NoChunksNoWords();
    while i < |words|
      invariant 0 <= i && WordsOf(result) == words[..if i < |words| then i else |words|]
      invariant Numbered(result, c) && idx == c.index + |result| && Even(result, targetWords)
      invariant i <= |words| && result != [] ==> |Fields(result[|result| - 1].text)| == targetWords
      decreases |words| - i
    {
      hide Even;
      var end := i + targetWords;
      if end > |words| {
        end := |words|;
      }
      var chunk := Chunk(JoinWords(words[i..end]), c.sourceFile, c.header, idx);
      assert forall j | 0 <= j < end - i :: words[i..end][j] == words[i + j];
      EvenNext(result, chunk, words[i..end], targetWords);
      assert words[..i] + words[i..end] == words[..end];
      result := result + [chunk];
      idx := idx + 1;
      i := i + targetWords;
    }
    assert words[..|words|] == words;
  }

  /* ---- the limit ---- */

  /** A chunk over the limit is split at paragraphs if it has several, else at sentences, else between words. */
  ghost predicate SplitToFit(result: seq<Chunk>, text: string, maxTokens: int) {
    if |Split(text, "\n\n")| > 1 then Packed(result, Split(text, "\n\n"), maxTokens) && CutInto(TextsOf(result), Split(text, "\n\n"), "\n\n")
    else if |Sentences(text)| > 1 then Packed(result, Sentences(text), maxTokens) && CutInto(TextsOf(result), Sentences(text), " ")
    else Even(result, maxTokens * 10 / 13) && forall j | 0 <= j < |result| :: 0 < EstTokens(result[j].text) <= maxTokens
  }

  /** Over the limit, with one paragraph and one sentence: the words have to be counted off. */
  predicate NeedsHardSplit(text: string, maxTokens: int) {
    0 < maxTokens < EstTokens(text) && |Split(text, "\n\n")| <= 1 && |Sentences(text)| <= 1
  }

  /** Whether the split ends: with a limit of 1 the stride between words is 0. */
  predicate Splittable(text: string, maxTokens: int) {
    maxTokens == 1 ==> !NeedsHardSplit(text, 1)
  }

  /** The word at which the hard split is after k chunks. */
  ghost function Position(k: nat, stride: int): int {
    if k == 0 then 0 else Position(k - 1, stride) + stride
  }

  lemma {:induction false} StandsStill(k: nat)
    ensures Position(k, 0) == 0
  {
    if k == 0 {
    } else {
      StandsStill(k - 1);
    }
  }

  lemma {:induction false} MovesOn(k: nat, stride: int)
    requires stride >= 1
    ensures Position(k, stride) >= k
  {
    if k == 0 {
    } else {
      MovesOn(k - 1, stride);
    }
  }

  /** A hard split gets to the end of the words after some number of chunks if and only if the text is splittable. */
  lemma HardSplitEndsIff(text: string, maxTokens: int)
    requires NeedsHardSplit(text, maxTokens)
    ensures (exists k: nat :: Position(k, maxTokens * 10 / 13) >= |Fields(text)|) <==> Splittable(text, maxTokens)
  {
    hide Fields, Split, Sentences;
    if maxTokens == 1 {
      forall k: nat ensures Position(k, maxTokens * 10 / 13) == 0 {
        StandsStill(k);
      }
    } else {
      MovesOn(|Fields(text)|, maxTokens * 10 / 13);
    }
  }

  /** Two words are enough: with a limit of 1 their split stays at the first word however often it goes round. */
  lemma TwoWordsNeverEnd(k: nat)
    ensures NeedsHardSplit("a b", 1) && !Splittable("a b", 1) && Position(k, 1 * 10 / 13) == 0 < |Fields("a b")|
  {
    StandsStill(k);
    WordIsOneField("a");
    WordIsOneField("b");
    FieldsAtSpace("a", ' ', "b");
    assert "a" + [' '] + "b" == "a b";
    NoBlankLine();
    NoSentenceEnd();
  }

  lemma NoBlankLine()
    ensures Split("a b", "\n\n") == ["a b"]
  {
    assert "a b"[1..] == " b" && " b"[1..] == "b";
    assert Index("b", "\n\n") == 1;
    assert " b"[..2][0] == ' ' && "a b"[..2][0] == 'a';
    assert Index(" b", "\n\n") == 2;
  }

  lemma NoSentenceEnd()
    ensures Sentences("a b") == ["a b"]
  {
    assert "a b"[0..] == "a b";
    LastSentence("a b", 0);
  }

  /** The chunk itself or its splits: no word is lost or moved, and indices run on from the chunk's own. */
  ghost predicate Enforced(result: seq<Chunk>, c: Chunk, maxTokens: int) {
    && WordsOf(result) == Fields(c.text) && Numbered(result, c)
    && if maxTokens <= 0 || EstTokens(c.text) <= maxTokens then result == [c] else SplitToFit(result, c.text, maxTokens)
  }

  method EnforceMaxTokens(c: Chunk, maxTokens: int) returns (result: seq<Chunk>)
    requires Splittable(c.text, maxTokens)
    ensures Enforced(result, c, maxTokens) && (Fields(c.text) != [] ==> result != [])
  {
    hide Fields, FieldsOfAll, Packed, Split, Numbered, CutInto, JoinWords;
    NoChunksNoWords();
    if maxTokens <= 0 || EstTokens(c.text) <= maxTokens {
      WordsOfOne(c);
      return [c];
    }
    var paras := Split(c.text, "\n\n");
    SplitKeepsWords(c.text, "\n\n");
    if |paras| > 1 {
      result := Pack(paras, "\n\n", c, maxTokens);
      if |result| > 0 {
        return;
      }
    }
    var sentences := SplitSentences(c.text);
    SentencesKeepWords(c.text);
    if |sentences| > 1 {
      result := Pack(sentences, " ", c, maxTokens);
      if |result| > 0 {
        return;
      }
    }
    var words := Fields(c.text);
    FieldsAreWords(c.text);
    result := HardSplit(words, maxTokens * 10 / 13, c);
  }

  lemma NoChunksNoWords()
    ensures WordsOf([]) == []
    ensures forall c: Chunk :: Numbered([c], c)
  {
    assert TextsOf([]) == [];
  }

  /* ---- files ---- */

  /** A stretch of a file with the heading over it. */
  datatype Section = Section(header: string, text: string)

  /** The paragraphs, under no heading. */
  ghost function Paragraphs(content: string): (r: seq<Section>)
    ensures |r| == |Split(content, "\n\n")| && forall i | 0 <= i < |r| :: r[i] == Section("", Split(content, "\n\n")[i])
  {
    seq(|Split(content, "\n\n")|, i requires 0 <= i < |Split(content, "\n\n")| => Section("", Split(content, "\n\n")[i]))
  }

  /** A heading of level 1 to 3. */
  predicate IsHeading(trimmed: string) {
    "### " <= trimmed || "## " <= trimmed || "# " <= trimmed
  }

  /** The lines before the first heading, then a section from each heading on. */
  ghost function Sections(lines: seq<string>): (r: seq<Section>)
    ensures r != []
  {
    if lines == [] then [Section("", "")]
    else
      var m := |lines| - 1;
      var before, line := Sections(lines[..m]), lines[m];
      var last := before[|before| - 1];
      if IsHeading(TrimSpace(line)) then before + [Section(TrimSpace(line), line + "\n")]
      else before[..|before| - 1] + [Section(last.header, last.text + line + "\n")]
  }

  /** A chunk for each section that is not blank, numbered in order. */
  ghost function ChunksOf(sections: seq<Section>, sourcePath: string): seq<Chunk> {
    if sections == [] then []
    else
      var before, last := ChunksOf(sections[..|sections| - 1], sourcePath), sections[|sections| - 1];
      if TrimSpace(last.text) == "" then before else before + [Chunk(TrimSpace(last.text), sourcePath, last.header, |before|)]
  }

  ghost function SectionTexts(sections: seq<Section>): (r: seq<string>)
    ensures |r| == |sections| && forall i | 0 <= i < |r| :: r[i] == sections[i].text
  {
    seq(|sections|, i requires 0 <= i < |sections| => sections[i].text)
  }

  ghost function SectionWords(sections: seq<Section>): seq<string> {
    FieldsOfAll(SectionTexts(sections))
  }

  /** Chunking sections loses no words. */
  lemma {:induction false} ChunksKeepWords(sections: seq<Section>, sourcePath: string)
    ensures WordsOf(ChunksOf(sections, sourcePath)) == SectionWords(sections)
  {
    hide Fields, FieldsOfAll, TrimSpace, WordsOf;
    NoChunksNoWords();
    NoFields();
    if sections == [] {
      assert SectionTexts(sections) == [];
    } else {
      var m := |sections| - 1;
      var before, text := ChunksOf(sections[..m], sourcePath), sections[m].text;
      ChunksKeepWords(sections[..m], sourcePath);
      assert SectionTexts(sections) == SectionTexts(sections[..m]) + [text];
      FieldsOfAllAppend(SectionTexts(sections[..m]), [text]);
      FieldsOfOne(text);
      TrimKeepsWords(text);
      BlankIffNoWords(text);
      var chunk := Chunk(TrimSpace(text), sourcePath, sections[m].header, |before|);
      WordsOfAppend(before, [chunk]);
      WordsOfOne(chunk);
      assert WordsOf(before) + [] == WordsOf(before);
    }
  }

  /** Each section is its header's line and what follows, ending in a newline; only the first may be empty. */
  ghost predicate WellHeaded(x: Section) {
    && (x.header != "" ==> x.text != "" && x.header <= TrimSpace(x.text))
    && (x.text != "" ==> x.text[|x.text| - 1] == '\n')
  }

  lemma {:induction false} SectionsAreHeaded(lines: seq<string>)
    ensures forall i | 0 <= i < |Sections(lines)| :: WellHeaded(Sections(lines)[i])
  {
    hide TrimSpace, IsHeading;
    if lines == [] {
    } else {
      var m := |lines| - 1;
      SectionsAreHeaded(lines[..m]);
      var before, line := Sections(lines[..m]), lines[m];
      var last := before[|before| - 1];
      if IsHeading(TrimSpace(line)) {
        HeadingNotBlank(line);
        TrimOfFirstLine(line, "\n");
      } else if last.header != "" {
        TrimOfFirstLine(last.text, line + "\n");
        assert last.text + (line + "\n") == last.text + line + "\n";
        assert WellHeaded(last);
      }
    }
  }

  lemma HeadingNotBlank(line: string)
    requires IsHeading(TrimSpace(line))
    ensures TrimSpace(line) != ""
  {
  }

  /** Splitting at headings keeps the words of the lines. */
  lemma {:induction false} SectionsKeepWords(lines: seq<string>)
    ensures SectionWords(Sections(lines)) == FieldsOfAll(lines)
  {
    hide Fields, FieldsOfAll, TrimSpace, IsHeading, WellHeaded;
    NoFields();
    if lines == [] {
      assert SectionTexts(Sections(lines)) == [""];
      FieldsOfOne("");
    } else {
      var m := |lines| - 1;
      SectionsKeepWords(lines[..m]);
      assert lines == lines[..m] + [lines[m]];
      FieldsOfAllAppend(lines[..m], [lines[m]]);
      FieldsOfOne(lines[m]);
      LastSectionWords(lines, m);
    }
  }

  /** The words of sections, the last one apart. */
  lemma LastApart(front: seq<Section>, last: Section)
    ensures SectionWords(front + [last]) == SectionWords(front) + Fields(last.text)
  {
    hide Fields, FieldsOfAll;
    assert SectionTexts(front + [last]) == SectionTexts(front) + [last.text];
    FieldsOfAllAppend(SectionTexts(front), [last.text]);
    FieldsOfOne(last.text);
  }

  lemma HeadingWords(before: seq<Section>, line: string)
    ensures SectionWords(before + [Section(TrimSpace(line), line + "\n")]) == SectionWords(before) + Fields(line)
  {
    hide Fields, SectionWords, TrimSpace;
    LastApart(before, Section(TrimSpace(line), line + "\n"));
    LineWords("", line);
    assert "" + line + "\n" == line + "\n";
    NoFields();
  }

  lemma FurtherLineWords(front: seq<Section>, last: Section, line: string)
    requires WellHeaded(last)
    ensures SectionWords(front + [Section(last.header, last.text + line + "\n")]) == SectionWords(front + [last]) + Fields(line)
  {
    hide Fields, SectionWords, TrimSpace;
    LastApart(front, last);
    LastApart(front, Section(last.header, last.text + line + "\n"));
    LineWords(last.text, line);
    assert SectionWords(front) + (Fields(last.text) + Fields(line)) == SectionWords(front) + Fields(last.text) + Fields(line);
  }

  lemma LastSectionWords(lines: seq<string>, m: nat)
    requires m + 1 == |lines|
    ensures SectionWords(Sections(lines)) == SectionWords(Sections(lines[..m])) + Fields(lines[m])
  {
    hide Fields, SectionWords, TrimSpace, IsHeading, WellHeaded;
    var before := Sections(lines[..m]);
    var front, last := before[..|before| - 1], before[|before| - 1];
    SectionsAreHeaded(lines[..m]);
    assert before == front + [last];
    if IsHeading(TrimSpace(lines[m])) {
      HeadingWords(before, lines[m]);
    } else {
      FurtherLineWords(front, last, lines[m]);
    }
  }

  lemma LineWords(current: string, line: string)
    requires current != "" ==> current[|current| - 1] == '\n'
    ensures Fields(current + line + "\n") == Fields(current) + Fields(line)
  {
    hide Fields;
    NoFields();
    FieldsAtSpace(line, '\n', "");
    assert line + "\n" + "" == line + "\n";
    if current == "" {
      assert current + line + "\n" == line + "\n";
    } else {
      var front := current[..|current| - 1];
      FieldsAtSpace(front, '\n', line + "\n");
      FieldsAtSpace(front, '\n', "");
      assert current == front + ['\n'] + "" && current + line + "\n" == front + ['\n'] + (line + "\n");
    }
  }

  /** From one to three hashes and a space. */
  ghost predicate StartsWithHashes(line: string) {
    exists n :: 1 <= n <= 3 && n < |line| && line[n] == ' ' && forall i | 0 <= i < n :: line[i] == '#'
  }

  lemma HeadingIff(line: string)
    ensures IsHeading(line) <==> StartsWithHashes(line)
  {
    if StartsWithHashes(line) {
      var n :| 1 <= n <= 3 && n < |line| && line[n] == ' ' && forall i | 0 <= i < n :: line[i] == '#';
      assert line[..n + 1] == ["# ", "## ", "### "][n - 1];
    }
    assert "# " <= line ==> line[1] == ' ';
    assert "## " <= line ==> line[2] == ' ';
    assert "### " <= line ==> line[3] == ' ';
  }

  /** The lines that are headings, trimmed, in order. */
  ghost function Headings(lines: seq<string>): seq<string> {
    if lines == [] then []
    else
      var m := |lines| - 1;
      Headings(lines[..m]) + if StartsWithHashes(TrimSpace(lines[m])) then [TrimSpace(lines[m])] else []
  }

  ghost function Headers(sections: seq<Section>): (r: seq<string>)
    ensures |r| == |sections| && forall i | 0 <= i < |r| :: r[i] == sections[i].header
  {
    seq(|sections|, i requires 0 <= i < |sections| => sections[i].header)
  }

  lemma HeadersNext(before: seq<Section>, line: string)
    requires before != []
    ensures var front, last := before[..|before| - 1], before[|before| - 1];
      && Headers(before + [Section(TrimSpace(line), line + "\n")]) == Headers(before) + [TrimSpace(line)]
      && Headers(front + [Section(last.header, last.text + line + "\n")]) == Headers(before)
  {
    hide TrimSpace;
  }

  /** There is one section before the first heading and one per heading, in order. */
  lemma {:induction false} OneSectionPerHeading(lines: seq<string>)
    ensures Headers(Sections(lines)) == [""] + Headings(lines)
  {
    hide TrimSpace, IsHeading, StartsWithHashes;
    if lines == [] {
      assert Headers(Sections(lines)) == [""];
    } else {
      var m := |lines| - 1;
      OneSectionPerHeading(lines[..m]);
      HeadingIff(TrimSpace(lines[m]));
      HeadersNext(Sections(lines[..m]), lines[m]);
    }
  }

  /* ---- sections put together again ---- */

  ghost function Concat(parts: seq<string>): string {
    if parts == [] then "" else Concat(parts[..|parts| - 1]) + parts[|parts| - 1]
  }

  /** The lines with a newline behind each. */
  ghost function AllLines(lines: seq<string>): string {
    if lines == [] then "" else AllLines(lines[..|lines| - 1]) + lines[|lines| - 1] + "\n"
  }

  lemma {:induction false} SectionsConcat(lines: seq<string>)
    ensures Concat(SectionTexts(Sections(lines))) == AllLines(lines)
  {
    hide TrimSpace, IsHeading, Concat, SectionTexts;
    if lines == [] {
      NoText();
      LastText([], Section("", ""));
      assert Sections(lines) == [] + [Section("", "")];
    } else {
      var m := |lines| - 1;
      var before, line := Sections(lines[..m]), lines[m];
      var front, last := before[..|before| - 1], before[|before| - 1];
      SectionsConcat(lines[..m]);
      assert before == front + [last];
      assert AllLines(lines) == AllLines(lines[..m]) + (line + "\n");
      if IsHeading(TrimSpace(line)) {
        LastText(before, Section(TrimSpace(line), line + "\n"));
      } else {
        assert last.text + (line + "\n") == last.text + line + "\n";
        LongerText(front, last, line + "\n");
        assert Sections(lines) == front + [Section(last.header, last.text + (line + "\n"))];
      }
    }
  }

  lemma NoText()
    ensures Concat(SectionTexts([])) == ""
  {
  }

  lemma LastText(front: seq<Section>, last: Section)
    ensures Concat(SectionTexts(front + [last])) == Concat(SectionTexts(front)) + last.text
  {
    var all := SectionTexts(front + [last]);
    assert all[..|front|] == SectionTexts(front) && all[|front|] == last.text;
  }

  lemma LongerText(front: seq<Section>, last: Section, more: string)
    ensures Concat(SectionTexts(front + [Section(last.header, last.text + more)])) == Concat(SectionTexts(front + [last])) + more
  {
    LastText(front, last);
    LastText(front, Section(last.header, last.text + more));
    assert Concat(SectionTexts(front)) + (last.text + more) == Concat(SectionTexts(front)) + last.text + more;
  }

  lemma {:induction false} AllLinesFirst(lines: seq<string>)
    requires lines != []
    ensures AllLines(lines) == lines[0] + "\n" + AllLines(lines[1..])
  {
    var m := |lines| - 1;
    if m == 0 {
      assert lines[..0] == [] == lines[1..];
    } else {
      AllLinesFirst(lines[..m]);
      assert lines[..m][1..] == lines[1..][..m - 1];
      var a, b := lines[0] + "\n", AllLines(lines[1..][..m - 1]);
      assert (a + b) + lines[m] + "\n" == a + (b + lines[m] + "\n");
    }
  }

  lemma {:induction false} AllLinesAreJoined(lines: seq<string>)
    requires lines != []
    ensures AllLines(lines) == Join(lines, "\n") + "\n"
  {
    AllLinesFirst(lines);
    if |lines| == 1 {
      assert lines[1..] == [];
    } else {
      AllLinesAreJoined(lines[1..]);
      assert lines[0] + "\n" + (Join(lines[1..], "\n") + "\n") == lines[0] + "\n" + Join(lines[1..], "\n") + "\n";
    }
  }

  /** The sections of a file one after the other are the file, with a newline behind it. */
  lemma SectionsAreTheFile(content: string)
    ensures Concat(SectionTexts(Sections(Split(content, "\n")))) == content + "\n"
  {
    hide Sections, Split, Join, Concat, AllLines;
    SectionsConcat(Split(content, "\n"));
    AllLinesAreJoined(Split(content, "\n"));
    JoinUndoesSplit(content, "\n");
  }

  /** Chunks numbered from 0, trimmed, each starting with the heading it carries. */
  ghost predicate UnderHeadings(chunks: seq<Chunk>, sourcePath: string) {
    forall j | 0 <= j < |chunks| ::
      && chunks[j].index == j && chunks[j].sourceFile == sourcePath
      && chunks[j].header <= chunks[j].text && IsTrimmed(chunks[j].text)
  }

  lemma {:induction false} ChunksUnderHeadings(sections: seq<Section>, sourcePath: string)
    requires forall i | 0 <= i < |sections| :: sections[i].header <= TrimSpace(sections[i].text)
    ensures UnderHeadings(ChunksOf(sections, sourcePath), sourcePath)
  {
    hide TrimSpace, IsTrimmed;
    if sections == [] {
    } else {
      ChunksUnderHeadings(sections[..|sections| - 1], sourcePath);
      TrimSpaceTrims(sections[|sections| - 1].text);
    }
  }

  /** The chunks of a Markdown file hold its words, are numbered in order, and each starts with the heading it carries. */
  lemma SectionsAreChunked(content: string, sourcePath: string)
    ensures var cs := ChunksOf(Sections(Split(content, "\n")), sourcePath);
      WordsOf(cs) == Fields(content) && UnderHeadings(cs, sourcePath)
  {
    hide Fields, FieldsOfAll, TrimSpace, Split, UnderHeadings, WordsOf;
    var lines := Split(content, "\n");
    SplitKeepsWords(content, "\n");
    SectionsKeepWords(lines);
    SectionsAreHeaded(lines);
    ChunksKeepWords(Sections(lines), sourcePath);
    ChunksUnderHeadings(Sections(lines), sourcePath);
  }

  /** The chunks of any other file hold its words, are numbered in order and carry no heading. */
  lemma ParagraphsKeepWords(content: string, sourcePath: string)
    ensures var cs := ChunksOf(Paragraphs(content), sourcePath);
      && WordsOf(cs) == Fields(content) && UnderHeadings(cs, sourcePath) && forall j | 0 <= j < |cs| :: cs[j].header == ""
  {
    hide Fields, FieldsOfAll, Split, UnderHeadings;
    ChunksKeepWords(Paragraphs(content), sourcePath);
    SplitKeepsWords(content, "\n\n");
    assert SectionTexts(Paragraphs(content)) == Split(content, "\n\n");
    ChunksUnderHeadings(Paragraphs(content), sourcePath);
    NoHeaders(Paragraphs(content), sourcePath);
  }

  lemma {:induction false} NoHeaders(sections: seq<Section>, sourcePath: string)
    requires forall i | 0 <= i < |sections| :: sections[i].header == ""
    ensures forall j | 0 <= j < |ChunksOf(sections, sourcePath)| :: ChunksOf(sections, sourcePath)[j].header == ""
  {
    hide TrimSpace;
    if sections == [] {
    } else {
      NoHeaders(sections[..|sections| - 1], sourcePath);
    }
  }

  method ChunkPlain(content: string, sourcePath: string) returns (chunks: seq<Chunk>)
    ensures chunks == ChunksOf(Paragraphs(content), sourcePath)
  {
    hide TrimSpace, Split;
    var paragraphs := Split(content, "\n\n");
    chunks := [];
    var chunkIndex := 0;
    for i := 0 to |paragraphs|
      invariant chunks == ChunksOf(Paragraphs(content)[..i], sourcePath) && chunkIndex == |chunks|
    {
      assert Paragraphs(content)[..i + 1][..i] == Paragraphs(content)[..i];
      var text := TrimSpace(paragraphs[i]);
      if text == "" {
        continue;
      }
      chunks := chunks + [Chunk(text, sourcePath, "", chunkIndex)];
      chunkIndex := chunkIndex + 1;
    }
    assert Paragraphs(content)[..|paragraphs|] == Paragraphs(content);
  }

  method Flush(chunks: seq<Chunk>, current: string, header: string, sourcePath: string, ghost done: seq<Section>)
    returns (flushed: seq<Chunk>)
    requires chunks == ChunksOf(done, sourcePath)
    ensures flushed == ChunksOf(done + [Section(header, current)], sourcePath)
  {
    hide TrimSpace;
    assert (done + [Section(header, current)])[..|done|] == done;
    var text := TrimSpace(current);
    if text != "" {
      return chunks + [Chunk(text, sourcePath, header, |chunks|)];
    }
    return chunks;
  }

  method ChunkMarkdown(content: string, sourcePath: string) returns (chunks: seq<Chunk>)
    ensures chunks == ChunksOf(Sections(Split(content, "\n")), sourcePath)
  {
    hide TrimSpace, Split, IsHeading, ChunksOf;
    var lines := Split(content, "\n");
    chunks := [];
    var current, currentHeader := "", "";
    ghost var done: seq<Section> := [];
    NoSections(sourcePath);
    for i := 0 to |lines|
      invariant chunks == ChunksOf(done, sourcePath)
      invariant Sections(lines[..i]) == done + [Section(currentHeader, current)]
    {
      assert lines[..i + 1][..i] == lines[..i] && lines[..i + 1][i] == lines[i];
      assert Sections(lines[..i])[..|done|] == done;
      var trimmed := TrimSpace(lines[i]);
      if IsHeading(trimmed) {
        chunks := Flush(chunks, current, currentHeader, sourcePath, done);
        done := done + [Section(currentHeader, current)];
        current := "";
        currentHeader := trimmed;
      }
      assert "" + lines[i] == lines[i];
      current := current + lines[i];
      current := current + "\n";
    }
    chunks := Flush(chunks, current, currentHeader, sourcePath, done);
    assert lines[..|lines|] == lines;
  }

  lemma NoSections(sourcePath: string)
    ensures ChunksOf([], sourcePath) == []
  {
  }

  /** The chunks of a file before any limit. */
  ghost function FileChunks(content: string, sourcePath: string, ext: string): seq<Chunk> {
    ChunksOf(if ext == ".md" then Sections(Split(content, "\n")) else Paragraphs(content), sourcePath)
  }

  /** result is the chunks in order, each as it is or split to fit. */
  ghost predicate AllEnforced(result: seq<Chunk>, chunks: seq<Chunk>, maxTokens: int)
    decreases |chunks|
  {
    if chunks == [] then result == []
    else
      var m := |chunks| - 1;
      exists k | 0 <= k <= |result| :: AllEnforced(result[..k], chunks[..m], maxTokens) && Enforced(result[k..], chunks[m], maxTokens)
  }

  lemma EnforcedNext(before: seq<Chunk>, split: seq<Chunk>, chunks: seq<Chunk>, i: nat, maxTokens: int)
    requires i < |chunks| && AllEnforced(before, chunks[..i], maxTokens) && Enforced(split, chunks[i], maxTokens)
    ensures AllEnforced(before + split, chunks[..i + 1], maxTokens)
  {
    hide Enforced;
    var result, k := before + split, |before|;
    assert result[..k] == before && result[k..] == split && chunks[..i + 1][..i] == chunks[..i];
  }

  /** Enforcing the limit keeps all words in order, and where each chunk comes from. */
  lemma {:induction false} EnforcingKeepsWords(result: seq<Chunk>, chunks: seq<Chunk>, maxTokens: int, sourcePath: string)
    requires AllEnforced(result, chunks, maxTokens) && forall i | 0 <= i < |chunks| :: chunks[i].sourceFile == sourcePath
    ensures WordsOf(result) == WordsOf(chunks) && forall i | 0 <= i < |result| :: result[i].sourceFile == sourcePath
    decreases |chunks|
  {
    hide Fields, WordsOf, SplitToFit;
    if chunks == [] {
    } else {
      var m := |chunks| - 1;
      var k :| 0 <= k <= |result| && AllEnforced(result[..k], chunks[..m], maxTokens) && Enforced(result[k..], chunks[m], maxTokens);
      EnforcingKeepsWords(result[..k], chunks[..m], maxTokens, sourcePath);
      WordsOfAppend(result[..k], result[k..]);
      WordsOfAppend(chunks[..m], [chunks[m]]);
      WordsOfOne(chunks[m]);
      assert result == result[..k] + result[k..] && chunks == chunks[..m] + [chunks[m]];
      assert forall i | k <= i < |result| :: result[i] == result[k..][i - k];
    }
  }

  lemma {:induction false} ChunksComeFrom(sections: seq<Section>, sourcePath: string)
    ensures forall i | 0 <= i < |ChunksOf(sections, sourcePath)| :: ChunksOf(sections, sourcePath)[i].sourceFile == sourcePath
  {
    hide TrimSpace;
    if sections == [] {
    } else {
      ChunksComeFrom(sections[..|sections| - 1], sourcePath);
    }
  }

  lemma FileChunksKeepWords(content: string, sourcePath: string, ext: string)
    ensures var cs := FileChunks(content, sourcePath, ext);
      WordsOf(cs) == Fields(content) && forall i | 0 <= i < |cs| :: cs[i].sourceFile == sourcePath
  {
    hide Fields, WordsOf, Split;
    if ext == ".md" {
      SectionsAreChunked(content, sourcePath);
      ChunksComeFrom(Sections(Split(content, "\n")), sourcePath);
    } else {
      ParagraphsKeepWords(content, sourcePath);
      ChunksComeFrom(Paragraphs(content), sourcePath);
    }
  }

  /** Chunking a file keeps all its words in order, whatever splits the limit forces. */
  method ChunkFile(content: string, sourcePath: string, ext: string, maxTokens: int) returns (result: seq<Chunk>)
    requires forall c | c in FileChunks(content, sourcePath, ext) :: Splittable(c.text, maxTokens)
    ensures if maxTokens > 0 then AllEnforced(result, FileChunks(content, sourcePath, ext), maxTokens)
      else result == FileChunks(content, sourcePath, ext)
    ensures WordsOf(result) == Fields(content)
    ensures forall j | 0 <= j < |result| :: result[j].sourceFile == sourcePath
  {
    hide Fields, WordsOf, Splittable, Enforced, ChunksOf, Sections, Paragraphs, Split;
    var chunks: seq<Chunk>;
    if ext == ".md" {
      chunks := ChunkMarkdown(content, sourcePath);
    } else {
      chunks := ChunkPlain(content, sourcePath);
    }
    FileChunksKeepWords(content, sourcePath, ext);
    if maxTokens > 0 {
      var enforced := [];
      for i := 0 to |chunks|
        invariant AllEnforced(enforced, chunks[..i], maxTokens)
      {
        hide AllEnforced;
        var split := EnforceMaxTokens(chunks[i], maxTokens);
        EnforcedNext(enforced, split, chunks, i, maxTokens);
        enforced := enforced + split;
      }
      assert chunks[..|chunks|] == chunks;
      EnforcingKeepsWords(enforced, chunks, maxTokens, sourcePath);
      return enforced;
    }
    return chunks;
  }
}
