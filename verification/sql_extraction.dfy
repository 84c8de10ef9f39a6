/** The SQL-extraction tail of `generate_sql_query`: the reply of the
    language model is searched for the pattern `(SELECT[\s\S]*?;)` with
    `re.IGNORECASE`; the first match, stripped, is returned, and without a
    match the whole reply, stripped, is returned. */
module SqlExtraction {
  import opened Wrappers
  import opened PyText

  /** The literal part of the pattern, written in lower case. */
  const Keyword: string := "select"

  /** The upper-case form of a lower-case ASCII letter. */
  function UpperAscii(p: char): (u: char) {
    if 'a' <= p <= 'z' then (p as int - 32) as char else p
  }

  /** Character `c` of the text matches the lower-case pattern letter `p`
      under `re.IGNORECASE`: the letter itself, its upper-case form, and,
      for `s`, also LATIN SMALL LETTER LONG S (U+017F), which Python's
      regular-expression engine treats as a case variant of `s`. */
  predicate MatchesIgnoreCase(c: char, p: char) {
    c == p || c == UpperAscii(p) || (p == 's' && c == '\U{017F}')
  }

  /** The keyword `SELECT`, in any letter case, occurs at index `i`. */
  predicate SelectAt(s: string, i: int) {
    0 <= i && i + |Keyword| <= |s|
    && forall k :: 0 <= k < |Keyword| ==> MatchesIgnoreCase(s[i + k], Keyword[k])
  }

  /** Some match of the pattern begins at index `i`: the keyword is there
      and a `;` follows it somewhere. */
  predicate MatchStartsAt(s: string, i: int) {
    SelectAt(s, i) && exists j :: i + |Keyword| <= j < |s| && s[j] == ';'
  }

  /** The lazy `[\s\S]*?` makes the match that begins at `i` end at `j`:
      the first `;` after the keyword. */
  predicate LazyMatch(s: string, i: int, j: int) {
    SelectAt(s, i) && i + |Keyword| <= j < |s| && s[j] == ';'
    && forall k :: i + |Keyword| <= k < j ==> s[k] != ';'
  }

  /** A match: `start` is the index of the keyword and `end` the index of
      the closing `;`, so the matched text is `s[start..end + 1]`. */
  datatype Match = Match(start: nat, end: nat)

  /** Leftmost index at or after `from` where the keyword occurs. */
  function FirstSelectFrom(s: string, from: nat): (r: Option<nat>)
    decreases |s| - from
    ensures r.Some? ==> from <= r.value && SelectAt(s, r.value)
    ensures forall k :: from <= k && (r.None? || k < r.value) ==> !SelectAt(s, k)
  {
    if from + |Keyword| > |s| then None
    else if SelectAt(s, from) then Some(from)
    else FirstSelectFrom(s, from + 1)
  }

  /** `re.search`: the match that begins leftmost, ended by the lazy
      quantifier at the first `;`; None when no position starts a match. */
  function Search(s: string): (r: Option<Match>)
    ensures r.Some? ==> LazyMatch(s, r.value.start, r.value.end)
    ensures r.Some? ==> forall i :: 0 <= i < r.value.start ==> !MatchStartsAt(s, i)
    ensures r.None? ==> forall i :: !MatchStartsAt(s, i)
  {
    match FirstSelectFrom(s, 0)
    case None => None
    case Some(i) =>
      match CharFrom(s, ';', i + |Keyword|)
      case None => None
      case Some(j) => Some(Match(i, j))
  }

  /** The extraction at the end of `generate_sql_query`: the stripped first
      match, or the stripped reply. A match begins with a letter and ends
      with `;`, so its `strip()` changes nothing and the result is exactly
      the matched text. */
  function ExtractSql(text: string): (r: string)
    ensures Search(text).Some? ==>
      r == text[Search(text).value.start .. Search(text).value.end + 1]
    ensures Search(text).None? ==> r == Strip(text)
  {
    match Search(text)
    case Some(m) => MatchIsTrimmed(text, m); Strip(text[m.start .. m.end + 1])
    case None => Strip(text)
  }

  /** The matched text is already stripped. */
  lemma MatchIsTrimmed(text: string, m: Match)
    requires LazyMatch(text, m.start, m.end)
    ensures Strip(text[m.start .. m.end + 1]) == text[m.start .. m.end + 1]
  {
    var t := text[m.start .. m.end + 1];
    assert MatchesIgnoreCase(text[m.start + 0], Keyword[0]);
    assert t[0] == text[m.start];
    StripTrimmed(t);
  }

  /** The leftmost-shortest semantics stated from the pattern alone: when
      the first keyword is at `i` and the first `;` after it is at `j`, the
      result is exactly `text[i..j + 1]`. */
  lemma ExtractSqlFirstSelect(text: string, i: int, j: int)
    requires LazyMatch(text, i, j)
    requires forall k :: 0 <= k < i ==> !SelectAt(text, k)
    ensures ExtractSql(text) == text[i..j + 1]
  {
    SearchFirstSelect(text, i, j);
    ExtractSqlMatched(text);
  }

  /** The search finds the first keyword and the first `;` after it. */
  lemma SearchFirstSelect(text: string, i: int, j: int)
    requires LazyMatch(text, i, j)
    requires forall k :: 0 <= k < i ==> !SelectAt(text, k)
    ensures Search(text) == Some(Match(i, j))
  {
    assert MatchStartsAt(text, i);
    var m := Search(text).value;
    assert MatchStartsAt(text, m.start);
    assert m.start == i;
    assert m.end == j;
  }

  /** Without any match the result is the whole reply, stripped. */
  lemma ExtractSqlFallback(text: string)
    requires forall i :: !MatchStartsAt(text, i)
    ensures ExtractSql(text) == Strip(text)
  {
    if Search(text).Some? {
      var m := Search(text).value;
      assert MatchStartsAt(text, m.start);
    }
  }

  /** A statement as the pattern captures it: the keyword in some letter
      case at the front, `;` at the end, and no other `;`. */
  predicate StatementShape(r: string) {
    && SelectAt(r, 0)
    && r[|r| - 1] == ';'
    && forall k :: 0 <= k < |r| - 1 ==> r[k] != ';'
  }

  /** When some position starts a match, the result has statement shape. */
  lemma ExtractSqlShape(text: string, i: int)
    requires MatchStartsAt(text, i)
    ensures StatementShape(ExtractSql(text))
  {
    SearchFinds(text, i);
    var r := ExtractSql(text);
    var m := Search(text).value;
    ExtractSqlMatched(text);
    SliceShape(r, text, m.start, m.end);
  }

  /** A position that starts a match makes the search succeed. */
  lemma SearchFinds(text: string, i: int)
    requires MatchStartsAt(text, i)
    ensures Search(text).Some?
  {
  }

  /** After a successful search the result is the matched text. */
  lemma ExtractSqlMatched(text: string)
    requires Search(text).Some?
    ensures ExtractSql(text) == text[Search(text).value.start .. Search(text).value.end + 1]
  {
  }

  /** A string equal to the text of a lazy match has statement shape. */
  lemma SliceShape(r: string, s: string, i: int, j: int)
    requires LazyMatch(s, i, j) && r == s[i..j + 1]
    ensures StatementShape(r)
  {
    MatchedTextShape(s, i, j);
  }

  /** The text of a lazy match has statement shape. */
  lemma MatchedTextShape(s: string, i: int, j: int)
    requires LazyMatch(s, i, j)
    ensures StatementShape(s[i..j + 1])
  {
    var r := s[i..j + 1];
    forall k | 0 <= k < |Keyword| ensures MatchesIgnoreCase(r[k], Keyword[k]) {
      assert r[k] == s[i + k];
    }
    forall k | 0 <= k < |r| - 1 ensures r[k] != ';' {
      assert r[k] == s[i + k];
      if k < |Keyword| {
        assert MatchesIgnoreCase(s[i + k], Keyword[k]);
      }
    }
  }

  /** The result is a contiguous piece of the reply, hence no longer than it. */
  lemma ExtractSqlIsInfix(text: string)
    ensures IsInfix(ExtractSql(text), text)
    ensures |ExtractSql(text)| <= |text|
  {
    var r := ExtractSql(text);
    var sr := Search(text);
    if sr.Some? {
      SliceIsInfix(text, sr.value.start, sr.value.end + 1);
    } else {
      StripIsInfix(text);
    }
    InfixNoLonger(r, text);
  }

  /** Extraction applied to its own output returns that output. */
  lemma ExtractSqlIdempotent(text: string)
    ensures ExtractSql(ExtractSql(text)) == ExtractSql(text)
  {
    var r := ExtractSql(text);
    match Search(text)
    case Some(m) =>
      ExtractSqlShape(text, m.start);
      assert LazyMatch(r, 0, |r| - 1);
      ExtractSqlFirstSelect(r, 0, |r| - 1);
      assert r[0..|r|] == r;
    case None =>
      var lo, hi := StripStart(text), StripEnd(text);
      StripCut(text);
      forall i | MatchStartsAt(r, i) ensures MatchStartsAt(text, lo + i) {
        MatchInSlice(text, lo, hi, i);
      }
      ExtractSqlFallback(r);
      StripIdempotent(text);
  }

  /** A match inside a slice of `s` is a match of `s`, shifted. */
  lemma MatchInSlice(s: string, lo: int, hi: int, i: int)
    requires 0 <= lo <= hi <= |s| && 0 <= i
    requires MatchStartsAt(s[lo..hi], i)
    ensures MatchStartsAt(s, lo + i)
  {
    var r := s[lo..hi];
    var j :| i + |Keyword| <= j < |r| && r[j] == ';';
    assert r[j] == s[lo + j];
    forall k | 0 <= k < |Keyword| ensures MatchesIgnoreCase(s[lo + i + k], Keyword[k]) {
      assert r[i + k] == s[lo + i + k];
    }
  }

  /** The keyword does not occur at `i` when the `k`-th letter disagrees. */
  lemma NotSelectAt(s: string, i: int, k: int)
    requires 0 <= k < |Keyword| && 0 <= i && i + k < |s|
    requires !MatchesIgnoreCase(s[i + k], Keyword[k])
    ensures !SelectAt(s, i)
  {
  }

  /** A reply in which the keyword appears inside a longer word. */
  const WordReply: string := "preselect 1;"

  /** The first keyword of `WordReply` is inside `preselect`. */
  lemma WordReplyMatch()
    ensures LazyMatch(WordReply, 3, 11)
    ensures forall i :: 0 <= i < 3 ==> !SelectAt(WordReply, i)
    ensures WordReply[3..12] == "select 1;"
  {
    var text := WordReply;
    assert text[3..12] == "select 1;";
    assert SelectAt(text, 3);
    forall i | 0 <= i < 3 ensures !SelectAt(text, i) {
      NotSelectAt(text, i, 0);
    }
  }

  /** There is no word-boundary check: a keyword inside a longer word
      starts the match. */
  lemma ExtractSqlInsideWord()
    ensures ExtractSql(WordReply) == "select 1;"
  {
    WordReplyMatch();
    ExtractSqlFirstSelect(WordReply, 3, 11);
  }

  /** A reply with explanatory text before the statement. */
  const ChattyReply: string := "Sure! SELECT * FROM T;"

  /** The keyword of `ChattyReply` is at index 6, and the first `;` after
      it is the last character. */
  lemma ChattyReplyMatch()
    ensures LazyMatch(ChattyReply, 6, 21)
  {
    var text := ChattyReply;
    assert text[6..12] == "SELECT";
    assert SelectAt(text, 6);
  }

  /** No keyword of `ChattyReply` begins before index 6. */
  lemma ChattyReplyPreamble()
    ensures forall i :: 0 <= i < 6 ==> !SelectAt(ChattyReply, i)
  {
    NotSelectAt(ChattyReply, 0, 1);
    forall i | 1 <= i < 6 ensures !SelectAt(ChattyReply, i) {
      NotSelectAt(ChattyReply, i, 0);
    }
  }

  /** What `ChattyReply` holds from its keyword on. */
  lemma ChattyReplyStatement()
    ensures ChattyReply[6..22] == "SELECT * FROM T;"
  {
  }

  /** A reply with text before the statement yields the statement alone. */
  lemma ExtractSqlFromChatter()
    ensures ExtractSql(ChattyReply) == "SELECT * FROM T;"
  {
    ChattyReplyMatch();
    ChattyReplyPreamble();
    ExtractSqlFirstSelect(ChattyReply, 6, 21);
    ChattyReplyStatement();
  }

  /** A reply that holds no statement, with whitespace around it. */
  const RefusalReply: string := " I cannot answer\n"

  /** `RefusalReply` has no `;` and strips to its middle. */
  lemma RefusalReplyShape()
    ensures forall i :: !MatchStartsAt(RefusalReply, i)
    ensures Strip(RefusalReply) == "I cannot answer"
  {
    var text := RefusalReply;
    assert text[1..16] == "I cannot answer";
    assert forall j :: 0 <= j < |text| ==> text[j] != ';';
    assert BlankCut(text, 1, 16);
    StripUnique(text, 1, 16);
  }

  /** A reply without a statement comes back stripped and otherwise unchanged. */
  lemma ExtractSqlNoStatement()
    ensures ExtractSql(RefusalReply) == "I cannot answer"
  {
    RefusalReplyShape();
    ExtractSqlFallback(RefusalReply);
  }
}
