/** The result code and the kind of error read from SQLite's message, and the message built from what the binding threw. */
module ErrorText {
  import opened Wrappers
  import opened Text
  import opened Errors

  const MARK := "(extended: "
  const OPEN_MARK := "(extended"
  const PREFIX := "SQLITE_"

  predicate IsCodeChar(c: char) {
    'A' <= c <= 'Z' || '0' <= c <= '9' || c == '_'
  }

  predicate IsCodeWord(s: string) {
    forall c | c in s :: IsCodeChar(c)
  }

  /** The code characters a string starts with. */
  function CodeRun(s: string): (run: string)
    ensures run <= s && IsCodeWord(run)
    ensures |run| < |s| ==> !IsCodeChar(s[|run|])
  {
    if s == "" || !IsCodeChar(s[0]) then "" else [s[0]] + CodeRun(s[1..])
  }

  /** The code after the last marker, if that marker is followed by one. */
  function CodeAfter(message: string, mark: string): Option<string> {
    match LastIndexOf(message, mark)
    case None => None
    case Some(i) => NonEmpty(CodeRun(message[i + |mark|..]))
  }

  function NonEmpty(run: string): Option<string> {
    if run == "" then None else Some(run)
  }

  /** The word that starts at the last place the prefix does. */
  function CodeFrom(message: string, prefix: string): Option<string> {
    match LastIndexOf(message, prefix)
    case None => None
    case Some(i) => Some(CodeRun(message[i..]))
  }

  function ExtendedCode(message: string): Option<string> {
    CodeAfter(message, MARK)
  }

  function PrimaryCode(message: string): Option<string> {
    CodeFrom(message, PREFIX)
  }

  function Code(message: string): Option<string> {
    var extended := ExtendedCode(message);
    if extended.Some? then extended else PrimaryCode(message)
  }

  datatype ErrorKind = UniqueViolation | ForeignKeyViolation | NotNullViolation | CheckViolation | Other

  /** The kind a code decides by itself. */
  function KindOfCode(code: Option<string>): Option<ErrorKind> {
    if code == Some("SQLITE_CONSTRAINT_UNIQUE") || code == Some("SQLITE_CONSTRAINT_PRIMARYKEY") then Some(UniqueViolation)
    else if code == Some("SQLITE_CONSTRAINT_FOREIGNKEY") then Some(ForeignKeyViolation)
    else if code == Some("SQLITE_CONSTRAINT_NOTNULL") then Some(NotNullViolation)
    else if code == Some("SQLITE_CONSTRAINT_CHECK") then Some(CheckViolation)
    else None
  }

  /** SQLite's text for a broken constraint. */
  function Words(kind: ErrorKind): string
    requires !kind.Other?
  {
    match kind
    case UniqueViolation => "UNIQUE constraint failed"
    case ForeignKeyViolation => "FOREIGN KEY constraint failed"
    case NotNullViolation => "NOT NULL constraint failed"
    case CheckViolation => "CHECK constraint failed"
  }

  /** The kind the constraint text decides. */
  function KindOfText(message: string): ErrorKind {
    if Contains(message, Words(UniqueViolation)) then UniqueViolation
    else if Contains(message, Words(ForeignKeyViolation)) then ForeignKeyViolation
    else if Contains(message, Words(NotNullViolation)) then NotNullViolation
    else if Contains(message, Words(CheckViolation)) then CheckViolation
    else Other
  }

  function Kind(message: string): ErrorKind {
    var byCode := KindOfCode(Code(message));
    if byCode.Some? then byCode.value else KindOfText(message)
  }

  /** What a JavaScript call threw: an `Error` with the message of its cause if that is one too, a string, or anything else. */
  datatype Thrown =
    | Exception(message: string, cause: Option<string>)
    | ThrownString(text: string)
    | ThrownOther(debug: string)

  function Message(thrown: Thrown): string {
    match thrown
    case Exception(message, Some(cause)) => Combine(message, cause)
    case Exception(message, None) => message
    case ThrownString(text) => text
    case ThrownOther(debug) => debug
  }

  /** The summary and SQLite's own text, unless the summary already has it. */
  function Combine(message: string, cause: string): string {
    if Contains(message, cause) then message else message + SEPARATOR + cause
  }

  function DatabaseError(thrown: Thrown): Error {
    Database(Message(thrown))
  }

  // ---- What an error says

  /**
   An error carries the summary and the cause, whole: the summary alone when it has the cause in it, and otherwise
   the two in that order with ": " between them.
   */
  lemma ErrorHasBothTexts(message: string, cause: string)
    ensures var error := DatabaseError(Exception(message, Some(cause)));
            && error.Database? && Contains(error.message, message) && Contains(error.message, cause)
            && (Contains(message, cause) ==> error.message == message)
            && (!Contains(message, cause) ==>
                  && |error.message| == |message| + 2 + |cause|
                  && error.message[..|message|] == message && error.message[|message| + 2..] == cause
                  && error.message[|message|] == ':' && error.message[|message| + 1] == ' ')
  {
    var joined := message + SEPARATOR + cause;
    assert joined[..|message|] == message && joined[|message| + 2..] == cause;
    assert OccursAt(message, message, 0) && OccursAt(joined, message, 0) && OccursAt(joined, cause, |message| + 2);
  }

  /** The message of the error for an exception and its cause. */
  function Told(message: string, cause: string): string {
    DatabaseError(Exception(message, Some(cause))).message
  }

  /** Without a cause it is the one text there is. */
  lemma ErrorWithoutACause(text: string)
    ensures DatabaseError(Exception(text, None)) == Database(text)
    ensures DatabaseError(ThrownString(text)) == Database(text)
    ensures DatabaseError(ThrownOther(text)) == Database(text)
  {
  }

  // ---- What a code is

  /** A non-empty block of code characters at `i` that no code character follows. */
  predicate BlockAt(message: string, i: nat, word: string) {
    && word != "" && IsCodeWord(word) && OccursAt(message, word, i)
    && (i + |word| < |message| ==> !IsCodeChar(message[i + |word|]))
  }

  /** Whether nothing joins position `i` on its left. */
  predicate StartsWord(message: string, i: nat)
    requires i <= |message|
  {
    i == 0 || !IsCodeChar(message[i - 1])
  }

  /** A whole word of code characters at `i`: a block that nothing joins on either side. */
  predicate WordAt(message: string, i: nat, word: string) {
    BlockAt(message, i, word) && StartsWord(message, i)
  }

  /** The last whole word that starts with the prefix. */
  ghost predicate LastWordAt(message: string, prefix: string, i: nat, word: string) {
    && prefix <= word && WordAt(message, i, word)
    && forall j: nat, other | prefix <= other && WordAt(message, j, other) :: j <= i
  }

  /** Where the last occurrence of the pattern is. */
  ghost predicate LastAt(message: string, pattern: string, i: nat) {
    OccursAt(message, pattern, i) && forall j: nat | OccursAt(message, pattern, j) :: j <= i
  }

  lemma RunIsBlock(message: string, i: nat)
    requires i <= |message| && CodeRun(message[i..]) != ""
    ensures BlockAt(message, i, CodeRun(message[i..]))
  {
    var rest := message[i..];
    var run := CodeRun(rest);
    assert rest[..|run|] == message[i..i + |run|];
    if |run| < |rest| {
      assert rest[|run|] == message[i + |run|];
    }
  }

  lemma {:induction false} RunExtends(word: string, rest: string)
    requires IsCodeWord(word)
    ensures CodeRun(word + rest) == word + CodeRun(rest)
  {
    if word == "" {
      assert word + rest == rest;
    } else {
      var tail := word[1..];
      assert forall c | c in tail :: c in word;
      RunExtends(tail, rest);
      assert (word + rest)[0] == word[0] && word[0] in word;
      assert (word + rest)[1..] == tail + rest;
      assert word == [word[0]] + tail;
    }
  }

  /** A code is a whole word, the one after the last extended marker; or else the block that starts at the last `SQLITE_`. */
  lemma CodeIsABlock(message: string)
    requires Code(message).Some?
    ensures ExtendedCode(message).Some? ==>
              exists i: nat :: LastAt(message, MARK, i) && WordAt(message, i + |MARK|, Code(message).value)
    ensures ExtendedCode(message).None? ==>
              exists i: nat :: LastAt(message, PREFIX, i) && BlockAt(message, i, Code(message).value) && PREFIX <= Code(message).value
  {
    if ExtendedCode(message).Some? {
      var i := LastIndexOf(message, MARK).value;
      RunIsBlock(message, i + |MARK|);
      CharOfOccurrence(message, MARK, i, i + |MARK| - 1);
      assert LastAt(message, MARK, i);
    } else {
      var i := LastIndexOf(message, PREFIX).value;
      PrimaryStartsWithPrefix(message, i);
      RunIsBlock(message, i);
      assert LastAt(message, PREFIX, i);
    }
  }

  /**
   The fallback reads the last whole word that starts with `SQLITE_` exactly when no code character stands before
   the last `SQLITE_`; and what it reads is a whole word of the message, if not there, only when the same word
   stands whole further left.
   */
  lemma FallbackIsAWordExactly(message: string, i: nat)
    requires ExtendedCode(message).None? && LastAt(message, PREFIX, i)
    ensures Code(message).Some?
    ensures LastWordAt(message, PREFIX, i, Code(message).value) <==> StartsWord(message, i)
    ensures (exists j: nat :: WordAt(message, j, Code(message).value)) <==>
              StartsWord(message, i) || exists j: nat | j < i :: WordAt(message, j, Code(message).value)
  {
    LastIndexIs(message, PREFIX, i);
    PrimaryStartsWithPrefix(message, i);
    RunIsBlock(message, i);
    WordsFromThePrefix(message, PREFIX, i);
  }

  /** No whole word starts with the prefix after the prefix's last occurrence. */
  lemma WordsFromThePrefix(message: string, prefix: string, i: nat)
    requires LastAt(message, prefix, i)
    ensures forall j: nat, word | prefix <= word && WordAt(message, j, word) :: j <= i
  {
    forall j: nat, word | prefix <= word && WordAt(message, j, word)
      ensures j <= i
    {
      assert message[j..j + |prefix|] == message[j..j + |word|][..|prefix|] == prefix;
      assert OccursAt(message, prefix, j);
    }
  }

  lemma PrimaryStartsWithPrefix(message: string, i: nat)
    requires OccursAt(message, PREFIX, i)
    ensures PREFIX <= CodeRun(message[i..])
  {
    var rest := message[i + |PREFIX|..];
    assert message[i..] == PREFIX + rest;
    RunExtends(PREFIX, rest);
  }

  /** There is no code exactly when no word starts with `SQLITE_` and no code character follows the last marker. */
  lemma NoCodeExactly(message: string)
    ensures Code(message).None? <==>
            && !Contains(message, PREFIX)
            && (forall i: nat | LastAt(message, MARK, i) :: i + |MARK| < |message| ==> !IsCodeChar(message[i + |MARK|]))
  {
    if Contains(message, MARK) {
      var i := LastIndexOf(message, MARK).value;
      assert LastAt(message, MARK, i);
      var rest := message[i + |MARK|..];
      if rest != "" {
        assert rest[0] == message[i + |MARK|];
      }
    }
  }

  /** When a code character does stand before it, the fallback reads the tail of a longer word. */
  lemma FallbackCanCutAWord(message: string, i: nat)
    requires ExtendedCode(message).None? && LastAt(message, PREFIX, i) && !StartsWord(message, i)
    ensures Code(message).Some?
    ensures exists start | 0 <= start < i :: WordAt(message, start, message[start..i] + Code(message).value)
  {
    LastIndexIs(message, PREFIX, i);
    PrimaryStartsWithPrefix(message, i);
    RunIsBlock(message, i);
    LongerWord(message, i, i, Code(message).value);
  }

  /** A block that code characters join on its left is the tail of a word. */
  lemma {:induction false} LongerWord(message: string, start: nat, i: nat, word: string)
    requires start <= i && i <= |message| && BlockAt(message, i, word) && IsCodeWord(message[start..i])
    requires !StartsWord(message, i)
    ensures exists k | 0 <= k < i :: WordAt(message, k, message[k..i] + word)
    decreases start
  {
    if StartsWord(message, start) {
      var whole := message[start..i] + word;
      assert message[start..start + |whole|] == message[start..i] + message[i..i + |word|];
      assert WordAt(message, start, whole);
    } else {
      assert message[start - 1..i] == [message[start - 1]] + message[start..i];
      LongerWord(message, start - 1, i, word);
    }
  }

  /** Any code character will do. */
  lemma ATailIsRead(c: char)
    requires IsCodeChar(c)
    ensures Code([c] + PREFIX) == Some(PREFIX) && IsCodeWord([c] + PREFIX)
  {
    assert |[c] + PREFIX| < |MARK|;
    assert IsCodeWord(PREFIX);
    TailOfAWord(c, PREFIX);
  }

  lemma TailOfAWord(c: char, prefix: string)
    requires prefix != "" && IsCodeWord(prefix)
    ensures CodeFrom([c] + prefix, prefix) == Some(prefix)
  {
    var m := [c] + prefix;
    assert m[1..1 + |prefix|] == prefix;
    LastIndexIs(m, prefix, 1);
    assert m[1..] == prefix + "";
    RunExtends(prefix, "");
  }

  /** An extended code written into a message is the code read from it, whatever comes before. */
  lemma ExtendedCodeRecovered(before: string, code: string, after: string)
    requires code != "" && IsCodeWord(code)
    requires after != "" ==> !IsCodeChar(after[0])
    requires !Contains(after, MARK)
    ensures ExtendedCode(before + (MARK + (code + after))) == Some(code)
    ensures Code(before + (MARK + (code + after))) == Some(code)
  {
    assert MARK[0] == '(' && '(' !in MARK[1..];
    CodeAfterRecovered(before, MARK, code, after);
  }

  /** The fallback reads a primary code written into a message without an extended one, up to its end. */
  lemma PrimaryCodeRecovered(before: string, rest: string, after: string)
    requires IsCodeWord(rest) && (after != "" ==> !IsCodeChar(after[0]))
    requires ExtendedCode(before + ("SQLITE_" + rest + after)).None?
    requires LastAt(before + ("SQLITE_" + rest + after), "SQLITE_", |before|)
    ensures Code(before + ("SQLITE_" + rest + after)) == Some("SQLITE_" + rest)
  {
    var word := PREFIX + rest;
    LastIndexIs(before + (word + after), PREFIX, |before|);
    assert (before + (word + after))[|before|..] == word + after;
    assert forall c | c in word :: c in PREFIX || c in rest;
    RunExtends(word, after);
    EmptyRun(after);
    assert word + "" == word;
  }

  /** Code characters are the capitals, the digits and the underscore of ASCII. */
  lemma CodeCharsExactly(c: char)
    ensures IsCodeChar(c) <==> 65 <= c as int <= 90 || 48 <= c as int <= 57 || c as int == 95
  {
  }

  /** The same for any marker whose first character is in no code and not in the marker again. */
  lemma CodeAfterRecovered(before: string, mark: string, code: string, after: string)
    requires mark != "" && !IsCodeChar(mark[0]) && mark[0] !in mark[1..]
    requires code != "" && IsCodeWord(code)
    requires after != "" ==> !IsCodeChar(after[0])
    requires !Contains(after, mark)
    ensures CodeAfter(before + (mark + (code + after)), mark) == Some(code)
  {
    var tail := mark + (code + after);
    LastAtStart(mark, code, after);
    LastIndexInSuffix(before, tail, mark);
    assert (before + tail)[|before| + |mark|..] == code + after;
    RunExtends(code, after);
    assert code + CodeRun(after) == code;
  }

  lemma LastAtStart(mark: string, code: string, after: string)
    requires mark != "" && !IsCodeChar(mark[0]) && mark[0] !in mark[1..]
    requires IsCodeWord(code) && !Contains(after, mark)
    ensures LastIndexOf(mark + (code + after), mark) == Some(0)
  {
    var tail := mark + (code + after);
    assert OccursAt(tail, mark, 0);
    forall j: nat | j > 0
      ensures !OccursAt(tail, mark, j)
    {
      OnlyAtStart(mark, code, after, j);
    }
    LastIndexIs(tail, mark, 0);
  }

  lemma OnlyAtStart(mark: string, code: string, after: string, j: nat)
    requires mark != "" && !IsCodeChar(mark[0]) && mark[0] !in mark[1..]
    requires IsCodeWord(code) && !Contains(after, mark)
    requires j > 0
    ensures !OccursAt(mark + (code + after), mark, j)
  {
    var tail := mark + (code + after);
    if j >= |mark| + |code| {
      assert tail == (mark + code) + after;
      OccursInSuffix(mark + code, after, mark, j);
    } else {
      if j >= |mark| {
        assert tail[j] == code[j - |mark|] && code[j - |mark|] in code;
      } else {
        assert tail[j] == mark[1..][j - 1] && mark[1..][j - 1] in mark[1..];
      }
      NoOccurrence(tail, mark, j, 0);
    }
  }

  /** Whether this is one of the codes that decide the kind by themselves, and which it decides. */
  predicate Decides(code: string, kind: ErrorKind) {
    match kind
    case UniqueViolation => code == "SQLITE_CONSTRAINT_UNIQUE" || code == "SQLITE_CONSTRAINT_PRIMARYKEY"
    case ForeignKeyViolation => code == "SQLITE_CONSTRAINT_FOREIGNKEY"
    case NotNullViolation => code == "SQLITE_CONSTRAINT_NOTNULL"
    case CheckViolation => code == "SQLITE_CONSTRAINT_CHECK"
    case Other => false
  }

  lemma CodesDecide(code: string, kind: ErrorKind)
    ensures KindOfCode(Some(code)) == Some(kind) <==> Decides(code, kind)
  {
    assert "SQLITE_CONSTRAINT_PRIMARYKEY"[18] == 'P' && "SQLITE_CONSTRAINT_FOREIGNKEY"[18] == 'F';
  }

  lemma DecidingCodesAreWords(code: string, kind: ErrorKind)
    requires Decides(code, kind)
    ensures code != "" && IsCodeWord(code)
  {
    UniqueIsAWord();
    PrimaryKeyIsAWord();
    ForeignKeyIsAWord();
    NotNullIsAWord();
    CheckIsAWord();
  }

  lemma UniqueIsAWord()
    ensures IsCodeWord("SQLITE_CONSTRAINT_UNIQUE")
  {
  }

  lemma PrimaryKeyIsAWord()
    ensures IsCodeWord("SQLITE_CONSTRAINT_PRIMARYKEY")
  {
  }

  lemma ForeignKeyIsAWord()
    ensures IsCodeWord("SQLITE_CONSTRAINT_FOREIGNKEY")
  {
  }

  lemma NotNullIsAWord()
    ensures IsCodeWord("SQLITE_CONSTRAINT_NOTNULL")
  {
  }

  lemma CheckIsAWord()
    ensures IsCodeWord("SQLITE_CONSTRAINT_CHECK")
  {
  }

  /** A mapped extended code decides the kind, whatever constraint words stand around it. */
  lemma KindFromExtendedCode(before: string, code: string, after: string, kind: ErrorKind)
    requires Decides(code, kind)
    requires after != "" ==> !IsCodeChar(after[0])
    requires !Contains(after, "(extended: ")
    ensures Kind(before + ("(extended: " + (code + after))) == kind
  {
    CodesDecide(code, kind);
    DecidingCodesAreWords(code, kind);
    ExtendedCodeRecovered(before, code, after);
  }

  predicate HasCodeFor(message: string, kind: ErrorKind) {
    Code(message).Some? && Decides(Code(message).value, kind)
  }

  /** Whether the kind is left to the words: no code, or one that decides nothing. */
  predicate LeftToWords(message: string) {
    Code(message).None? || forall kind :: !Decides(Code(message).value, kind)
  }

  /** Each kind of every message: by a code for it, or, without a code that decides, by its words and not those looked for before. */
  lemma KindExactly(message: string)
    ensures Kind(message) == UniqueViolation <==>
              HasCodeFor(message, UniqueViolation) || (LeftToWords(message) && Contains(message, "UNIQUE constraint failed"))
    ensures Kind(message) == ForeignKeyViolation <==>
              || HasCodeFor(message, ForeignKeyViolation)
              || (&& LeftToWords(message) && Contains(message, "FOREIGN KEY constraint failed")
                  && !Contains(message, "UNIQUE constraint failed"))
    ensures Kind(message) == NotNullViolation <==>
              || HasCodeFor(message, NotNullViolation)
              || (&& LeftToWords(message) && Contains(message, "NOT NULL constraint failed")
                  && !Contains(message, "UNIQUE constraint failed") && !Contains(message, "FOREIGN KEY constraint failed"))
    ensures Kind(message) == CheckViolation <==>
              || HasCodeFor(message, CheckViolation)
              || (&& LeftToWords(message) && Contains(message, "CHECK constraint failed")
                  && !Contains(message, "UNIQUE constraint failed") && !Contains(message, "FOREIGN KEY constraint failed")
                  && !Contains(message, "NOT NULL constraint failed"))
    ensures Kind(message) == Other <==>
              && LeftToWords(message)
              && !Contains(message, "UNIQUE constraint failed") && !Contains(message, "FOREIGN KEY constraint failed")
              && !Contains(message, "NOT NULL constraint failed") && !Contains(message, "CHECK constraint failed")
  {
    KindByCode(message);
    TextsDecide(message);
  }

  lemma KindByCode(message: string)
    ensures if LeftToWords(message) then Kind(message) == KindOfText(message) else HasCodeFor(message, Kind(message))
    ensures forall kind :: HasCodeFor(message, kind) ==> kind == Kind(message) && !LeftToWords(message)
  {
    if Code(message).Some? {
      forall kind
        ensures KindOfCode(Code(message)) == Some(kind) <==> Decides(Code(message).value, kind)
      {
        CodesDecide(Code(message).value, kind);
      }
    }
  }

  lemma TextsDecide(message: string)
    ensures KindOfText(message) ==
              if Contains(message, "UNIQUE constraint failed") then UniqueViolation
              else if Contains(message, "FOREIGN KEY constraint failed") then ForeignKeyViolation
              else if Contains(message, "NOT NULL constraint failed") then NotNullViolation
              else if Contains(message, "CHECK constraint failed") then CheckViolation
              else Other
  {
  }

  // ---- What combining does to the code

  /** A marker the separator ends, as "(extended: " does: `open` is the rest of it. */
  predicate MarkOf(mark: string, open: string) {
    mark == open + SEPARATOR && ':' !in open && open != "" && open[0] != ' '
  }

  /** Where a marker is last found in a combined message: a summary ending in `open` is completed by the separator. */
  lemma MarkInJoin(m: string, c: string, mark: string, open: string)
    requires MarkOf(mark, open)
    ensures LastIndexOf(m + SEPARATOR + c, mark) ==
              if Contains(c, mark) then Some(|m| + 2 + LastIndexOf(c, mark).value)
              else if EndsWith(m, open) then Some(|m| - |open|)
              else LastIndexOf(m, mark)
  {
    var s := m + SEPARATOR + c;
    assert s == m + (SEPARATOR + c);
    if Contains(c, mark) {
      LastIndexInSuffix(m + SEPARATOR, c, mark);
    } else {
      forall j: nat | OccursAt(s, mark, j)
        ensures (j + |mark| <= |m| && OccursAt(m, mark, j)) || (EndsWith(m, open) && j == |m| - |open|)
      {
        MarkAcrossSeparator(m, c, mark, open, j);
        if |m| + 2 <= j {
          OccursInSuffix(m + SEPARATOR, c, mark, j);
        } else if j + |mark| <= |m| {
          OccursInPrefix(m, SEPARATOR + c, mark, j);
        }
      }
      if EndsWith(m, open) {
        var i := |m| - |open|;
        assert s[i..i + |mark|] == m[i..] + SEPARATOR;
        LastIndexIs(s, mark, i);
      } else if Contains(m, mark) {
        var i := LastIndexOf(m, mark).value;
        OccursInPrefix(m, SEPARATOR + c, mark, i);
        LastIndexIs(s, mark, i);
      }
    }
  }

  /** The marker's one colon can only meet the separator's. */
  lemma MarkAcrossSeparator(m: string, c: string, mark: string, open: string, j: nat)
    requires MarkOf(mark, open)
    requires OccursAt(m + SEPARATOR + c, mark, j)
    ensures j + |mark| <= |m| || |m| + 2 <= j || (EndsWith(m, open) && j == |m| - |open|)
  {
    var s := m + SEPARATOR + c;
    assert s[|m|] == ':' && s[|m| + 1] == ' ';
    assert forall i | 0 <= i < |open| :: open[i] in open && mark[i] == open[i];
    if j == |m| + 1 {
      CharOfOccurrence(s, mark, j, j);
    } else if j <= |m| < j + |mark| {
      CharOfOccurrence(s, mark, j, |m|);
      var k := |m| - j;
      assert k == |open|;
      assert s[j..j + |mark|][..k] == m[j..];
      assert mark[..k] == open;
    }
  }

  lemma RunStopsAtSeparator(m: string, i: nat, c: string)
    requires i <= |m|
    ensures CodeRun((m + SEPARATOR + c)[i..]) == CodeRun(m[i..])
  {
    var run := CodeRun(m[i..]);
    var rest := m[i + |run|..];
    assert m[i..] == run + rest;
    assert (m + SEPARATOR + c)[i..] == run + (rest + SEPARATOR + c);
    RunExtends(run, rest + SEPARATOR + c);
    if rest == "" {
      assert (rest + SEPARATOR + c)[0] == ':';
    } else {
      assert (rest + SEPARATOR + c)[0] == rest[0];
      assert m[i..][|run|] == rest[0];
    }
    assert CodeRun(rest + SEPARATOR + c) == "";
  }

  lemma CodeAfterInJoin(m: string, c: string, mark: string, open: string)
    requires MarkOf(mark, open)
    ensures CodeAfter(m + SEPARATOR + c, mark) ==
              if Contains(c, mark) then CodeAfter(c, mark)
              else if EndsWith(m, open) then NonEmpty(CodeRun(c))
              else CodeAfter(m, mark)
  {
    var s := m + SEPARATOR + c;
    MarkInJoin(m, c, mark, open);
    if Contains(c, mark) {
      var i := LastIndexOf(c, mark).value;
      TailOfJoin(m, c, i + |mark|);
      CodeAfterAt(s, mark, |m| + 2 + i, c[i + |mark|..]);
      CodeAfterAt(c, mark, i, c[i + |mark|..]);
    } else if EndsWith(m, open) {
      TailOfJoin(m, c, 0);
      CodeAfterAt(s, mark, |m| - |open|, c[0..]);
      assert c[0..] == c;
    } else if Contains(m, mark) {
      var i := LastIndexOf(m, mark).value;
      RunStopsAtSeparator(m, i + |mark|, c);
      CodeAfterAt(s, mark, i, s[i + |mark|..]);
      CodeAfterAt(m, mark, i, m[i + |mark|..]);
    }
  }

  lemma CodeAfterAt(s: string, mark: string, i: nat, rest: string)
    requires LastIndexOf(s, mark) == Some(i) && s[i + |mark|..] == rest
    ensures CodeAfter(s, mark) == NonEmpty(CodeRun(rest))
  {
  }

  lemma TailOfJoin(m: string, c: string, i: nat)
    requires i <= |c|
    ensures (m + SEPARATOR + c)[|m| + 2 + i..] == c[i..]
  {
  }

  lemma CodeFromInJoin(m: string, c: string, prefix: string)
    requires ':' !in prefix && prefix != "" && prefix[0] != ' '
    ensures CodeFrom(m + SEPARATOR + c, prefix) == Or(CodeFrom(c, prefix), CodeFrom(m, prefix))
  {
    var s := m + SEPARATOR + c;
    LastIndexInJoin(m, c, prefix);
    if Contains(c, prefix) {
      var i := LastIndexOf(c, prefix).value;
      assert s[|m| + 2 + i..] == c[i..];
    } else if Contains(m, prefix) {
      RunStopsAtSeparator(m, LastIndexOf(m, prefix).value, c);
    }
  }

  /** The code of a combined message, read off its two parts. */
  lemma CombinedCode(m: string, c: string)
    ensures ExtendedCode(m + SEPARATOR + c) ==
              if Contains(c, MARK) then ExtendedCode(c)
              else if EndsWith(m, OPEN_MARK) then NonEmpty(CodeRun(c))
              else ExtendedCode(m)
    ensures PrimaryCode(m + SEPARATOR + c) == Or(PrimaryCode(c), PrimaryCode(m))
  {
    assert MarkOf(MARK, OPEN_MARK);
    CodeAfterInJoin(m, c, MARK, OPEN_MARK);
    CodeFromInJoin(m, c, PREFIX);
  }

  /** What the summary must not bring for the cause's code to be the one read. */
  predicate LeavesCodeAlone(m: string, c: string) {
    || Contains(c, MARK)
    || (if EndsWith(m, OPEN_MARK) then CodeRun(c) == "" || Some(CodeRun(c)) == Code(c)
        else ExtendedCode(m).None? || ExtendedCode(m) == Code(c))
  }

  /** A cause's code survives combining exactly when the cause has a marker of its own or the summary brings no other code. */
  lemma CauseKeepsItsCode(m: string, c: string)
    requires !Contains(m, c) && Code(c).Some?
    ensures Code(Told(m, c)) == Code(c) <==> LeavesCodeAlone(m, c)
    ensures ExtendedCode(c).Some? ==> Code(Told(m, c)) == ExtendedCode(c)
  {
    CombinedCode(m, c);
  }

  lemma {:induction false} RunJoined(s: string, b: string)
    ensures CodeRun(s + b) == if CodeRun(s) == s then s + CodeRun(b) else CodeRun(s)
  {
    if s == "" {
      assert s + b == b;
    } else {
      assert (s + b)[0] == s[0] && (s + b)[1..] == s[1..] + b;
      if IsCodeChar(s[0]) {
        RunJoined(s[1..], b);
        assert CodeRun(s) == [s[0]] + CodeRun(s[1..]) && s == [s[0]] + s[1..];
        assert CodeRun(s)[1..] == CodeRun(s[1..]);
      }
    }
  }

  /** Whether the word read at `i` in `c` would be longer with `b` after it. */
  predicate Joins(c: string, b: string, i: nat)
    requires i <= |c|
  {
    CodeRun(c[i..]) == c[i..] && b != "" && IsCodeChar(b[0])
  }

  lemma EmptyRun(b: string)
    ensures CodeRun(b) == "" <==> b == "" || !IsCodeChar(b[0])
  {
  }

  lemma RunKept(rest: string, b: string)
    ensures CodeRun(rest) <= CodeRun(rest + b)
    ensures CodeRun(rest + b) == CodeRun(rest) <==> !(CodeRun(rest) == rest && b != "" && IsCodeChar(b[0]))
  {
    RunJoined(rest, b);
    EmptyRun(b);
    assert |rest + CodeRun(b)| == |rest| + |CodeRun(b)|;
    if CodeRun(b) == "" {
      assert rest + "" == rest;
    }
  }

  lemma RunOfJoined(c: string, b: string, i: nat)
    requires i <= |c|
    ensures CodeRun((c + b)[i..]) == CodeRun(c[i..]) <==> !Joins(c, b, i)
  {
    assert (c + b)[i..] == c[i..] + b;
    RunKept(c[i..], b);
  }

  lemma CodeAfterInSuffix(a: string, s: string, mark: string)
    requires Contains(s, mark)
    ensures CodeAfter(a + s, mark) == CodeAfter(s, mark)
  {
    var i := LastIndexOf(s, mark).value;
    LastIndexInSuffix(a, s, mark);
    assert (a + s)[|a| + i + |mark|..] == s[i + |mark|..];
    CodeAfterAt(a + s, mark, |a| + i, s[i + |mark|..]);
    CodeAfterAt(s, mark, i, s[i + |mark|..]);
  }

  lemma CodeAfterJoined(c: string, b: string, mark: string, i: nat)
    requires LastIndexOf(c, mark) == Some(i) && LastIndexOf(c + b, mark) == Some(i) && CodeAfter(c, mark).Some?
    ensures CodeAfter(c + b, mark).Some?
    ensures CodeAfter(c + b, mark) == CodeAfter(c, mark) <==> !Joins(c, b, i + |mark|)
  {
    var rest := c[i + |mark|..];
    CodeAfterAt(c, mark, i, rest);
    assert (c + b)[i + |mark|..] == rest + b;
    CodeAfterAt(c + b, mark, i, rest + b);
    RunKept(rest, b);
  }

  lemma CodeFromJoined(c: string, b: string, prefix: string, i: nat)
    requires LastIndexOf(c, prefix) == Some(i) && LastIndexOf(c + b, prefix) == Some(i)
    ensures CodeFrom(c + b, prefix) == CodeFrom(c, prefix) <==> !Joins(c, b, i)
  {
    RunOfJoined(c, b, i);
  }

  lemma CodeFromInSuffix(a: string, s: string, prefix: string)
    requires Contains(s, prefix)
    ensures CodeFrom(a + s, prefix) == CodeFrom(s, prefix)
  {
    var i := LastIndexOf(s, prefix).value;
    LastIndexInSuffix(a, s, prefix);
    assert (a + s)[|a| + i..] == s[i..];
  }

  /**
   A summary that contains the cause, anywhere, is the whole message. If nothing after the cause in it starts
   another marker, the cause's extended code is still the one read exactly when no code character follows on from
   it; and the same of its fallback, when the summary brings no extended code and no later `SQLITE_`.
   */
  lemma WrappedCauseKeepsItsCode(a: string, c: string, b: string)
    ensures Contains(a + (c + b), c) && Told(a + (c + b), c) == a + (c + b)
    ensures ExtendedCode(c).Some? && LastIndexOf(c + b, MARK) == LastIndexOf(c, MARK) ==>
              (Code(a + (c + b)) == Code(c) <==> !Joins(c, b, LastIndexOf(c, MARK).value + |MARK|))
    ensures ExtendedCode(a + (c + b)).None? && Code(c).Some? && ExtendedCode(c).None? && LastIndexOf(c + b, PREFIX) == LastIndexOf(c, PREFIX) ==>
              (Code(a + (c + b)) == Code(c) <==> !Joins(c, b, LastIndexOf(c, PREFIX).value))
    ensures ExtendedCode(c + b).Some? ==> Code(a + (c + b)) == ExtendedCode(c + b)
  {
    var s := a + (c + b);
    assert s[|a|..|a| + |c|] == c;
    assert OccursAt(s, c, |a|);
    if Contains(c + b, MARK) {
      CodeAfterInSuffix(a, c + b, MARK);
    }
    if ExtendedCode(c).Some? && LastIndexOf(c + b, MARK) == LastIndexOf(c, MARK) {
      CodeAfterJoined(c, b, MARK, LastIndexOf(c, MARK).value);
    }
    if Contains(c + b, PREFIX) {
      CodeFromInSuffix(a, c + b, PREFIX);
    }
    if PrimaryCode(c).Some? && LastIndexOf(c + b, PREFIX) == LastIndexOf(c, PREFIX) {
      CodeFromJoined(c, b, PREFIX, LastIndexOf(c, PREFIX).value);
    }
  }

  // ---- What combining does to the kind

  /** The order in which the constraint texts are looked for. */
  function Rank(kind: ErrorKind): nat {
    match kind
    case UniqueViolation => 0
    case ForeignKeyViolation => 1
    case NotNullViolation => 2
    case CheckViolation => 3
    case Other => 4
  }

  lemma WordsInJoin(kind: ErrorKind, m: string, c: string)
    requires !kind.Other?
    ensures Contains(m + SEPARATOR + c, Words(kind)) <==> Contains(m, Words(kind)) || Contains(c, Words(kind))
  {
    WordsHaveNoColon(kind);
    LastIndexInJoin(m, c, Words(kind));
  }

  lemma WordsHaveNoColon(kind: ErrorKind)
    requires !kind.Other?
    ensures PlainWords(Words(kind))
  {
    match kind
    case UniqueViolation => assert PlainWords("UNIQUE constraint failed");
    case ForeignKeyViolation => assert PlainWords("FOREIGN KEY constraint failed");
    case NotNullViolation => assert PlainWords("NOT NULL constraint failed");
    case CheckViolation => assert PlainWords("CHECK constraint failed");
  }

  predicate PlainWords(w: string) {
    |w| >= 6 && ':' !in w && w[0] != ' ' && w[|w| - 6] == 'f'
  }

  /** By its text, a combined message is of the kind looked for first among those of its parts. */
  lemma CombinedKindOfText(m: string, c: string)
    ensures KindOfText(m + SEPARATOR + c) == if Rank(KindOfText(m)) < Rank(KindOfText(c)) then KindOfText(m) else KindOfText(c)
  {
    WordsInJoin(UniqueViolation, m, c);
    WordsInJoin(ForeignKeyViolation, m, c);
    WordsInJoin(NotNullViolation, m, c);
    WordsInJoin(CheckViolation, m, c);
  }

  /** The code read from two parts joined. */
  function JoinedCode(m: string, c: string): Option<string> {
    Or(if Contains(c, MARK) then ExtendedCode(c) else if EndsWith(m, OPEN_MARK) then NonEmpty(CodeRun(c)) else ExtendedCode(m),
       Or(PrimaryCode(c), PrimaryCode(m)))
  }

  function Earlier(first: ErrorKind, second: ErrorKind): ErrorKind {
    if Rank(first) < Rank(second) then first else second
  }

  /** The kind of whatever is combined: the summary's own if it contains the cause, else read off the two parts. */
  lemma CombinedKind(m: string, c: string)
    ensures Kind(Told(m, c)) ==
              if Contains(m, c) then Kind(m) else KindOfCode(JoinedCode(m, c)).GetOr(Earlier(KindOfText(m), KindOfText(c)))
  {
    CombinedCode(m, c);
    CombinedKindOfText(m, c);
  }

  /**
   A cause added to a summary keeps its kind exactly when the code then read decides that kind; or, when that code
   decides none, when the words looked for first do.
   */
  lemma CauseKeepsItsKind(m: string, c: string)
    requires !Contains(m, c)
    ensures Kind(Told(m, c)) == Kind(c) <==> KindStays(m, c)
  {
    CombinedKind(m, c);
    KindParts(c);
    KindsCompared(KindOfCode(JoinedCode(m, c)), KindOfCode(Code(c)), KindOfText(m), KindOfText(c));
  }

  /** So once its own code survives, that code must decide it, or the summary's words name no kind looked for earlier. */
  lemma CodedCauseKeepsItsKind(m: string, c: string)
    requires !Contains(m, c) && Code(c).Some? && LeavesCodeAlone(m, c)
    ensures Kind(Told(m, c)) == Kind(c) <==> KindOfCode(Code(c)).Some? || Rank(KindOfText(c)) <= Rank(KindOfText(m))
  {
    CauseKeepsItsKind(m, c);
    CodeLeftAlone(m, c);
    SameCode(KindOfCode(Code(c)), KindOfText(m), KindOfText(c));
  }

  lemma SameCode(own: Option<ErrorKind>, summary: ErrorKind, cause: ErrorKind)
    ensures KindsAgree(own, own, summary, cause) <==> own.Some? || Rank(cause) <= Rank(summary)
  {
  }

  lemma KindParts(message: string)
    ensures Kind(message) == KindOfCode(Code(message)).GetOr(KindOfText(message))
  {
  }

  lemma CodeLeftAlone(m: string, c: string)
    ensures Code(c).Some? && LeavesCodeAlone(m, c) ==> JoinedCode(m, c) == Code(c)
  {
  }

  lemma KindsCompared(read: Option<ErrorKind>, own: Option<ErrorKind>, summary: ErrorKind, cause: ErrorKind)
    ensures read.GetOr(Earlier(summary, cause)) == own.GetOr(cause) <==> KindsAgree(read, own, summary, cause)
  {
  }

  predicate KindStays(m: string, c: string) {
    KindsAgree(KindOfCode(JoinedCode(m, c)), KindOfCode(Code(c)), KindOfText(m), KindOfText(c))
  }

  /** Whether the kind read is the cause's, from what the code read, the cause's own code, and the words of each decide. */
  predicate KindsAgree(read: Option<ErrorKind>, own: Option<ErrorKind>, summary: ErrorKind, cause: ErrorKind) {
    if read.Some? then read.value == own.GetOr(cause)
    else if own.Some? then Earlier(summary, cause) == own.value
    else Rank(cause) <= Rank(summary)
  }

  /** So a summary's words can override the kind of a cause whose extended code is not one of the five mapped ones. */
  lemma SummaryCanOverrideTheKind()
    ensures exists m, c ::
              && !Contains(m, c) && ExtendedCode(c) == Some("SQLITE_BUSY_SNAPSHOT")
              && Kind(c) == Other && Kind(Told(m, c)) == UniqueViolation
  {
    var m, code := Words(UniqueViolation), "SQLITE_BUSY_SNAPSHOT";
    var c := MARK + (code + ")");
    assert IsCodeWord(code) && 'f' !in code;
    CauseOf(code, c);
    SummaryOverrides(m, code, c);
  }

  lemma CauseOf(code: string, c: string)
    requires code != "" && IsCodeWord(code) && 'f' !in code && c == MARK + (code + ")")
    ensures ExtendedCode(c) == Some(code) && 'f' !in c && |c| == |code| + 12
  {
    assert |")"| < |MARK|;
    CodeOfCause(code, ")");
    assert 'f' !in MARK;
  }

  lemma CodeOfCause(code: string, after: string)
    requires code != "" && IsCodeWord(code)
    requires |after| < |MARK| && after != "" && !IsCodeChar(after[0])
    ensures ExtendedCode(MARK + (code + after)) == Some(code)
  {
    ExtendedCodeRecovered("", code, after);
    assert "" + (MARK + (code + after)) == MARK + (code + after);
  }

  lemma SummaryOverrides(m: string, code: string, c: string)
    requires m == Words(UniqueViolation) && |m| < |c| && 'f' !in c && |code| == 20
    requires ExtendedCode(c) == Some(code)
    ensures !Contains(m, c) && Kind(c) == Other && Kind(Told(m, c)) == UniqueViolation
  {
    UnmappedCode(code);
    NoConstraintWords(c);
    assert OccursAt(m, m, 0);
    CauseKeepsItsCode(m, c);
    CombinedKindOfText(m, c);
  }

  lemma UnmappedCode(code: string)
    requires |code| == 20
    ensures KindOfCode(Some(code)).None?
  {
  }

  /** Every constraint text has the word "failed" in it. */
  lemma NoConstraintWords(c: string)
    requires 'f' !in c
    ensures KindOfText(c) == Other
  {
    forall kind: ErrorKind, i: nat | !kind.Other?
      ensures !OccursAt(c, Words(kind), i)
    {
      WordsHaveNoColon(kind);
      NoOccurrence(c, Words(kind), i, |Words(kind)| - 6);
    }
  }
}
