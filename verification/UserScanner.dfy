/**
 Splitting a printed user from its bracketed group list (`src/types/user.rs`). The scan is a character loop with two
 flags; what it finds is stated by a grammar of user texts: characters outside quotes, and quoted runs in which a
 backslash hides the next character.
 */
module UserScanner {
  import opened Prelude

  // ---------- The grammar ----------

  datatype QuotedChar = Raw(c: char) | Hidden(c: char)

  datatype Piece = Plain(c: char) | QuotedRun(chars: seq<QuotedChar>)

  predicate IsUserPiece(p: Piece) {
    match p
    case Plain(c) => c != '"' && c != '[' && c != ']'
    case QuotedRun(chars) => AllRawHarmless(chars)
  }

  predicate IsHarmless(q: QuotedChar) {
    q.Raw? ==> q.c != '"' && q.c != '\\'
  }

  predicate AllRawHarmless(chars: seq<QuotedChar>) {
    forall i | 0 <= i < |chars| :: IsHarmless(chars[i])
  }

  predicate IsUserText(pieces: seq<Piece>) {
    forall i | 0 <= i < |pieces| :: IsUserPiece(pieces[i])
  }

  function PrintChar(q: QuotedChar): string {
    match q
    case Raw(c) => [c]
    case Hidden(c) => ['\\', c]
  }

  function PrintChars(chars: seq<QuotedChar>): string {
    if chars == [] then []
    else PrintChar(chars[0]) + PrintChars(chars[1..])
  }

  function PrintPiece(p: Piece): string {
    match p
    case Plain(c) => [c]
    case QuotedRun(chars) => "\"" + PrintChars(chars) + "\""
  }

  function Print(pieces: seq<Piece>): string {
    if pieces == [] then [] else PrintPiece(pieces[0]) + Print(pieces[1..])
  }

  predicate IsGroupName(g: string) {
    g != "" && IsTrimmed(g) && ',' !in g && '[' !in g && ']' !in g
  }

  // ---------- Comma-separated lists ----------

  function Join(parts: seq<string>): string {
    if parts == [] then []
    else if |parts| == 1 then parts[0]
    else parts[0] + ("," + Join(parts[1..]))
  }

  function SplitAtCommas(s: string): (parts: seq<string>)
    ensures parts != []
    ensures forall g, c :: g in parts && c in g ==> c in s && c != ','
  {
    if s == [] then [""]
    else if s[0] == ',' then [""] + SplitAtCommas(s[1..])
    else
      var rest := SplitAtCommas(s[1..]);
      [[s[0]] + rest[0]] + rest[1..]
  }

  function TrimAll(parts: seq<string>): seq<string> {
    seq(|parts|, i requires 0 <= i < |parts| => Trim(parts[i]))
  }

  lemma {:induction false} SplitWithoutCommas(g: string)
    requires ',' !in g
    ensures SplitAtCommas(g) == [g]
  {
    if g == [] {
      assert g == "";
    } else {
      SplitWithoutCommas(g[1..]);
      assert g == [g[0]] + g[1..];
    }
  }

  lemma {:induction false} SplitAtFirstComma(g: string, rest: string)
    requires ',' !in g
    ensures SplitAtCommas(g + ("," + rest)) == [g] + SplitAtCommas(rest)
  {
    var s := g + ("," + rest);
    if g == [] {
      assert s == "," + rest && s[1..] == rest && g == "";
    } else {
      SplitAtFirstComma(g[1..], rest);
      assert s[1..] == g[1..] + ("," + rest);
      assert g == [g[0]] + g[1..];
    }
  }

  lemma {:induction false} SplitInvertsJoin(parts: seq<string>)
    requires parts != [] && forall g | g in parts :: ',' !in g
    ensures SplitAtCommas(Join(parts)) == parts
  {
    if |parts| == 1 {
      SplitWithoutCommas(parts[0]);
    } else {
      SplitInvertsJoin(parts[1..]);
      SplitAtFirstComma(parts[0], Join(parts[1..]));
    }
  }

  lemma {:induction false} JoinedCharacters(parts: seq<string>, c: char)
    requires c in Join(parts)
    ensures c == ',' || exists g :: g in parts && c in g
  {
    if |parts| <= 1 || c in parts[0] || c == ',' {
    } else {
      JoinedCharacters(parts[1..], c);
    }
  }

  // ---------- The scan ----------

  datatype Mode = Outside | Quoted | Escaped

  /** Where a scan stops: at an opening or a closing bracket outside quotes, or nowhere. */
  datatype ScanEnd = Whole | Opens(at: nat) | Closes(at: nat)

  function Shift(e: ScanEnd, n: nat): ScanEnd {
    match e
    case Whole => Whole
    case Opens(at) => Opens(at + n)
    case Closes(at) => Closes(at + n)
  }

  function Scan(s: string, mode: Mode): (e: ScanEnd)
    ensures e.Opens? ==> e.at < |s| && s[e.at] == '['
    ensures e.Closes? ==> e.at < |s| && s[e.at] == ']'
  {
    if s == [] then Whole
    else if mode == Outside && s[0] == '[' then Opens(0)
    else if mode == Outside && s[0] == ']' then Closes(0)
    else Shift(Scan(s[1..], NextMode(mode, s[0])), 1)
  }

  function NextMode(mode: Mode, c: char): Mode {
    match mode
    case Escaped => Quoted
    case Outside => if c == '"' then Quoted else Outside
    case Quoted => if c == '\\' then Escaped else if c == '"' then Outside else Quoted
  }

  lemma ScanStep(c: char, rest: string, mode: Mode)
    requires mode == Outside ==> c != '[' && c != ']'
    ensures Scan([c] + rest, mode) == Shift(Scan(rest, NextMode(mode, c)), 1)
  {
    assert ([c] + rest)[1..] == rest;
  }

  lemma {:induction false} ScanOverQuotedChars(chars: seq<QuotedChar>, rest: string)
    requires AllRawHarmless(chars)
    ensures Scan(PrintChars(chars) + (['"'] + rest), Quoted) == Shift(Scan(rest, Outside), |PrintChars(chars)| + 1)
  {
    var end := ['"'] + rest;
    if chars == [] {
      ScanStep('"', rest, Quoted);
      assert PrintChars(chars) + end == end;
    } else {
      var q, others := chars[0], PrintChars(chars[1..]);
      ScanOverQuotedChars(chars[1..], rest);
      ScanOverQuotedChar(q, others + end);
      AppendAssociative(PrintChar(q), others, end);
      assert PrintChars(chars) == PrintChar(q) + others;
    }
  }

  lemma ScanOverQuotedChar(q: QuotedChar, rest: string)
    requires IsHarmless(q)
    ensures Scan(PrintChar(q) + rest, Quoted) == Shift(Scan(rest, Quoted), |PrintChar(q)|)
  {
    match q
    case Raw(c) => ScanStep(c, rest, Quoted);
    case Hidden(c) =>
      assert ['\\', c] + rest == ['\\'] + ([c] + rest);
      ScanStep('\\', [c] + rest, Quoted);
      ScanStep(c, rest, Escaped);
  }

  /** The scan passes over a whole user text, wherever its quotes and brackets are. */
  lemma {:induction false} ScanOverUserText(pieces: seq<Piece>, rest: string)
    requires IsUserText(pieces)
    ensures Scan(Print(pieces) + rest, Outside) == Shift(Scan(rest, Outside), |Print(pieces)|)
  {
    if pieces == [] {
      assert Print(pieces) + rest == rest;
    } else {
      ScanOverUserText(pieces[1..], rest);
      var tail := Print(pieces[1..]) + rest;
      AppendAssociative(PrintPiece(pieces[0]), Print(pieces[1..]), rest);
      ScanOverPiece(pieces[0], tail);
    }
  }

  lemma ScanOverPiece(p: Piece, rest: string)
    requires IsUserPiece(p)
    ensures Scan(PrintPiece(p) + rest, Outside) == Shift(Scan(rest, Outside), |PrintPiece(p)|)
  {
    match p
    case Plain(c) => ScanStep(c, rest, Outside);
    case QuotedRun(chars) =>
      PrintedRun(chars, rest);
      ScanOverQuotedChars(chars, rest);
      ScanStep('"', PrintChars(chars) + (['"'] + rest), Outside);
  }

  lemma PrintedRun(chars: seq<QuotedChar>, rest: string)
    ensures PrintPiece(QuotedRun(chars)) + rest == ['"'] + (PrintChars(chars) + (['"'] + rest))
  {
  }

  lemma PrintCharsOnto(q: QuotedChar, chars: seq<QuotedChar>)
    ensures PrintChars([q] + chars) == PrintChar(q) + PrintChars(chars)
  {
    assert ([q] + chars)[1..] == chars;
  }

  lemma PrintOnto(p: Piece, pieces: seq<Piece>)
    ensures Print([p] + pieces) == PrintPiece(p) + Print(pieces)
  {
    assert ([p] + pieces)[1..] == pieces;
  }

  /** What was scanned inside quotes, up to and with the closing quote. */
  lemma {:induction false} ReadQuoted(s: string) returns (chars: seq<QuotedChar>, rest: string)
    requires Scan(s, Quoted) != Whole
    ensures AllRawHarmless(chars) && s == PrintChars(chars) + (['"'] + rest)
    decreases |s|
  {
    assert s == [s[0]] + s[1..];
    if s[0] == '"' {
      chars, rest := [], s[1..];
    } else if s[0] == '\\' {
      chars, rest := ReadAfterBackslash(s[1..]);
    } else {
      var others;
      others, rest := ReadQuoted(s[1..]);
      chars := [Raw(s[0])] + others;
      PrintCharsOnto(Raw(s[0]), others);
      AppendAssociative([s[0]], PrintChars(others), ['"'] + rest);
    }
  }

  lemma {:induction false} ReadAfterBackslash(s: string) returns (chars: seq<QuotedChar>, rest: string)
    requires Scan(s, Escaped) != Whole
    ensures AllRawHarmless(chars) && ['\\'] + s == PrintChars(chars) + (['"'] + rest)
    decreases |s|
  {
    var others;
    others, rest := ReadQuoted(s[1..]);
    chars := [Hidden(s[0])] + others;
    PrintCharsOnto(Hidden(s[0]), others);
    assert s == [s[0]] + s[1..];
    AppendAssociative(['\\'], [s[0]], s[1..]);
    AppendAssociative(['\\'] + [s[0]], PrintChars(others), ['"'] + rest);
    assert ['\\'] + [s[0]] == PrintChar(chars[0]);
  }

  /** Whatever comes before the bracket a scan stops at is a user text. */
  lemma {:induction false} ReadUserText(s: string) returns (pieces: seq<Piece>)
    requires Scan(s, Outside) != Whole
    ensures IsUserText(pieces) && Print(pieces) == s[..Scan(s, Outside).at]
    decreases |s|
  {
    if s[0] == '[' || s[0] == ']' {
      pieces := [];
    } else {
      var p, rest := ReadPiece(s);
      ScanOverPiece(p, rest);
      var others := ReadUserText(rest);
      pieces := [p] + others;
      PrintOnto(p, others);
    }
  }

  lemma ReadPiece(s: string) returns (p: Piece, rest: string)
    requires Scan(s, Outside) != Whole && s[0] != '[' && s[0] != ']'
    ensures IsUserPiece(p) && s == PrintPiece(p) + rest && |rest| < |s|
  {
    assert s == [s[0]] + s[1..];
    if s[0] == '"' {
      var chars;
      chars, rest := ReadQuoted(s[1..]);
      PrintedRun(chars, rest);
      p := QuotedRun(chars);
    } else {
      p, rest := Plain(s[0]), s[1..];
    }
  }

  /** The scan stops at exactly the first bracket that has a user text before it. */
  lemma ScanFindsFirstBracket(s: string, k: nat)
    requires k < |s|
    ensures Scan(s, Outside) == Opens(k) <==>
      s[k] == '[' && exists pieces :: IsUserText(pieces) && Print(pieces) == s[..k]
    ensures Scan(s, Outside) == Closes(k) <==>
      s[k] == ']' && exists pieces :: IsUserText(pieces) && Print(pieces) == s[..k]
  {
    if Scan(s, Outside) == Opens(k) || Scan(s, Outside) == Closes(k) {
      var pieces := ReadUserText(s);
    }
    if pieces :| IsUserText(pieces) && Print(pieces) == s[..k] {
      ScanAfterUserText(s, k, pieces);
    }
  }

  lemma ScanAfterUserText(s: string, k: nat, pieces: seq<Piece>)
    requires k < |s| && IsUserText(pieces) && Print(pieces) == s[..k]
    ensures Scan(s, Outside) == Shift(Scan(s[k..], Outside), k)
  {
    ScanOverUserText(pieces, s[k..]);
    assert s == Print(pieces) + s[k..];
  }

  // ---------- The split ----------

  datatype UserText = UserText(user: string, groups: Option<seq<string>>)

  datatype SplitError = UnexpectedDelimiter | UnterminatedList | NestedDelimiter | EmptyGroup

  function SplitList(user: string, text: string): Result<UserText, SplitError> {
    if '[' in text || ']' in text then Err(NestedDelimiter)
    else if Trim(text) == "" then Ok(UserText(user, None))
    else if "" in TrimAll(SplitAtCommas(text)) then Err(EmptyGroup)
    else Ok(UserText(user, Some(TrimAll(SplitAtCommas(text)))))
  }

  function SplitUser(s: string): Result<UserText, SplitError> {
    var input := Trim(s);
    match Scan(input, Outside)
    case Whole => Ok(UserText(input, None))
    case Closes(_) => Err(UnexpectedDelimiter)
    case Opens(start) =>
      if input[|input| - 1] != ']' then Err(UnterminatedList)
      else SplitList(Trim(input[..start]), input[start + 1..|input| - 1])
  }

  function ModeOf(inQuotes: bool, escaped: bool): Mode {
    if escaped then Escaped else if inQuotes then Quoted else Outside
  }

  lemma ScanFrom(s: string, i: nat, mode: Mode)
    requires i < |s|
    ensures Scan(s[i..], mode) ==
      if mode == Outside && s[i] == '[' then Opens(0)
      else if mode == Outside && s[i] == ']' then Closes(0)
      else Shift(Scan(s[i + 1..], NextMode(mode, s[i])), 1)
  {
    assert s[i..][1..] == s[i + 1..];
  }

  /** The character loop of split_user_and_groups. */
  method ScanInput(input: string) returns (e: ScanEnd)
    ensures e == Scan(input, Outside)
  {
    var inQuotes, escaped := false, false;
    assert input[0..] == input;
    for i := 0 to |input|
      invariant escaped ==> inQuotes
      invariant Scan(input, Outside) == Shift(Scan(input[i..], ModeOf(inQuotes, escaped)), i)
    {
      ScanFrom(input, i, ModeOf(inQuotes, escaped));
      var c := input[i];
      if escaped {
        escaped := false;
      } else if c == '\\' && inQuotes {
        escaped := true;
      } else if c == '"' {
        inQuotes := !inQuotes;
      } else if c == '[' && !inQuotes {
        return Opens(i);
      } else if c == ']' && !inQuotes {
        return Closes(i);
      }
    }
    e := Whole;
  }

  /** split_user_and_groups. */
  method SplitUserAndGroups(s: string) returns (r: Result<UserText, SplitError>)
    ensures r == SplitUser(s)
  {
    var input := Trim(s);
    var end := ScanInput(input);
    match end {
      case Whole => r := Ok(UserText(input, None));
      case Closes(_) => r := Err(UnexpectedDelimiter);
      case Opens(start) =>
        if input[|input| - 1] != ']' {
          r := Err(UnterminatedList);
        } else {
          r := SplitList(Trim(input[..start]), input[start + 1..|input| - 1]);
        }
    }
  }

  // ---------- Round trips ----------

  /** A list of names as written with `gap` after each comma; printed group lists have one space there. */
  function Spaced(groups: seq<string>, gap: string): seq<string> {
    seq(|groups|, i requires 0 <= i < |groups| => if i == 0 then groups[0] else gap + groups[i])
  }

  const PRINTED_GAP := " "

  /** A user text followed by a bracketed list of group names. */
  function PrintUser(user: string, groups: seq<string>, gap: string): string {
    user + "[" + Join(Spaced(groups, gap)) + "]"
  }

  lemma {:induction false} TrimDropsGap(gap: string, g: string)
    requires IsBlank(gap) && g != "" && IsTrimmed(g)
    ensures Trim(gap + g) == g
  {
    if gap == "" {
      assert gap + g == g;
      TrimOfTrimmed(g);
    } else {
      assert (gap + g)[1..] == gap[1..] + g;
      TrimDropsGap(gap[1..], g);
    }
  }

  lemma TrimRecoversNames(groups: seq<string>, gap: string)
    requires IsBlank(gap) && forall g | g in groups :: IsGroupName(g)
    ensures TrimAll(Spaced(groups, gap)) == groups
  {
    forall i | 0 <= i < |groups| ensures Trim(Spaced(groups, gap)[i]) == groups[i] {
      assert groups[i] in groups;
      TrimOfTrimmed(groups[i]);
      TrimDropsGap(gap, groups[i]);
    }
  }

  /** Neither names nor blanks hold a character that would end or split the list. */
  lemma SpacedNamesAreClean(groups: seq<string>, gap: string)
    requires IsBlank(gap) && forall g | g in groups :: IsGroupName(g)
    ensures forall part | part in Spaced(groups, gap) :: ',' !in part && '[' !in part && ']' !in part
  {
    forall part | part in Spaced(groups, gap) ensures ',' !in part && '[' !in part && ']' !in part {
      var i :| 0 <= i < |groups| && Spaced(groups, gap)[i] == part;
      assert groups[i] in groups;
    }
  }

  lemma JoinedNamesAreAList(groups: seq<string>, gap: string)
    requires groups != [] && IsBlank(gap) && forall g | g in groups :: IsGroupName(g)
    ensures var text := Join(Spaced(groups, gap));
      '[' !in text && ']' !in text && TrimAll(SplitAtCommas(text)) == groups && "" !in groups
  {
    var parts := Spaced(groups, gap);
    SpacedNamesAreClean(groups, gap);
    if '[' in Join(parts) { JoinedCharacters(parts, '['); }
    if ']' in Join(parts) { JoinedCharacters(parts, ']'); }
    SplitInvertsJoin(parts);
    TrimRecoversNames(groups, gap);
  }

  lemma ScanOfPrinted(pieces: seq<Piece>, text: string)
    requires IsUserText(pieces)
    ensures Scan(Print(pieces) + "[" + text + "]", Outside) == Opens(|Print(pieces)|)
  {
    ScanOverUserText(pieces, "[" + text + "]");
    assert Print(pieces) + "[" + text + "]" == Print(pieces) + ("[" + text + "]");
  }

  /** The inputs accepted with groups, in full. */
  ghost predicate IsUserWithList(input: string, pieces: seq<Piece>, text: string) {
    && IsUserText(pieces) && input == Print(pieces) + "[" + text + "]"
    && '[' !in text && ']' !in text
    && "" !in TrimAll(SplitAtCommas(text))
  }

  lemma {:induction false} BlankListsHaveAnEmptyName(text: string)
    requires Trim(text) == ""
    ensures "" in TrimAll(SplitAtCommas(text))
  {
    TrimStartDropsWhitespace(text);
    BlankParts(text);
    var parts := SplitAtCommas(text);
    assert TrimAll(parts)[0] == "";
  }

  lemma TrimStartDropsWhitespace(s: string)
    requires TrimStart(s) == ""
    ensures IsBlank(s)
  {
    TrimStartKeepsSuffix(s);
  }

  lemma {:induction false} BlankTrims(s: string)
    requires IsBlank(s)
    ensures Trim(s) == ""
  {
    if s == [] {
    } else {
      BlankTrims(s[1..]);
    }
  }

  lemma BlankParts(text: string)
    requires IsBlank(text)
    ensures Trim(SplitAtCommas(text)[0]) == ""
  {
    var parts := SplitAtCommas(text);
    forall c | c in parts[0] ensures IsWhitespace(c) {
      assert parts[0] in parts;
    }
    BlankTrims(parts[0]);
  }

  /** Groups are found exactly where a user text is followed by one bracketed list without an empty name. */
  lemma AcceptsGroupsExactly(s: string)
    ensures (SplitUser(s).Ok? && SplitUser(s).value.groups.Some?) <==>
      exists pieces, text :: IsUserWithList(Trim(s), pieces, text)
  {
    if SplitUser(s).Ok? && SplitUser(s).value.groups.Some? {
      var pieces, text := AcceptedShape(s);
    }
    if pieces, text :| IsUserWithList(Trim(s), pieces, text) {
      ShapeIsAccepted(s, pieces, text);
    }
  }

  lemma AcceptedShape(s: string) returns (pieces: seq<Piece>, text: string)
    requires SplitUser(s).Ok? && SplitUser(s).value.groups.Some?
    ensures IsUserWithList(Trim(s), pieces, text)
    ensures SplitUser(s).value == UserText(Trim(Print(pieces)), Some(TrimAll(SplitAtCommas(text))))
  {
    var start;
    start, text := AcceptedList(s);
    pieces := ReadUserText(Trim(s));
  }

  /** An accepted input with a bracket is what stands before it and one list. */
  lemma AcceptedList(s: string) returns (start: nat, text: string)
    requires SplitUser(s).Ok? && Scan(Trim(s), Outside) != Whole
    ensures Scan(Trim(s), Outside) == Opens(start) && Trim(s) == Trim(s)[..start] + "[" + text + "]"
    ensures SplitUser(s) == SplitList(Trim(Trim(s)[..start]), text)
  {
    var input := Trim(s);
    start := Scan(input, Outside).at;
    OpenedList(s, start, input[start + 1..]);
    SplitAt(input, start);
    text := input[start + 1..|input| - 1];
    Bracketed(input, start);
  }

  lemma Bracketed(input: string, start: nat)
    requires start < |input| - 1 && input[start] == '[' && input[|input| - 1] == ']'
    ensures input == input[..start] + "[" + input[start + 1..|input| - 1] + "]"
  {
  }

  lemma ShapeIsAccepted(s: string, pieces: seq<Piece>, text: string)
    requires IsUserWithList(Trim(s), pieces, text)
    ensures SplitUser(s) == Ok(UserText(Trim(Print(pieces)), Some(TrimAll(SplitAtCommas(text)))))
  {
    var input, user := Trim(s), Print(pieces);
    ScanOfPrinted(pieces, text);
    assert input[..|user|] == user && input[|user| + 1..|input| - 1] == text;
    if Trim(text) == "" {
      BlankListsHaveAnEmptyName(text);
    }
  }

  /**
   Splitting inverts printing, whatever brackets, commas and escapes the user text holds inside quotes and whatever
   blanks follow the commas of the list.
   */
  lemma SplitInvertsPrint(pieces: seq<Piece>, groups: seq<string>, gap: string)
    requires IsUserText(pieces) && IsTrimmed(Print(pieces))
    requires groups != [] && IsBlank(gap) && forall g | g in groups :: IsGroupName(g)
    ensures SplitUser(PrintUser(Print(pieces), groups, gap)) == Ok(UserText(Print(pieces), Some(groups)))
  {
    var s := PrintUser(Print(pieces), groups, gap);
    assert s[0] == (Print(pieces) + "[")[0] && s[|s| - 1] == ']';
    TrimOfTrimmed(s);
    TrimOfTrimmed(Print(pieces));
    JoinedNamesAreAList(groups, gap);
    ShapeIsAccepted(s, pieces, Join(Spaced(groups, gap)));
  }

  /** No user text at the front of the input is followed by a bracket. */
  ghost predicate HasNoBracket(input: string) {
    forall pieces, k | 0 <= k < |input| && IsUserText(pieces) && Print(pieces) == input[..k] ::
      input[k] != '[' && input[k] != ']'
  }

  /** A user text and a bracketed list of blanks. */
  ghost predicate IsUserWithBlankList(input: string, pieces: seq<Piece>, text: string) {
    IsUserText(pieces) && input == Print(pieces) + "[" + text + "]" && IsBlank(text)
  }

  /** A user without groups is the whole input, where it has no bracket, or what stands before a blank list. */
  lemma AcceptsWithoutGroupsExactly(s: string, user: string)
    ensures SplitUser(s) == Ok(UserText(user, None)) <==>
      || (HasNoBracket(Trim(s)) && user == Trim(s))
      || (exists pieces, text :: IsUserWithBlankList(Trim(s), pieces, text) && user == Trim(Print(pieces)))
  {
    var input := Trim(s);
    WholeMeansNoBracket(input);
    if SplitUser(s) == Ok(UserText(user, None)) && Scan(input, Outside) != Whole {
      var pieces, text := BlankListShape(s);
    }
    if pieces, text :| IsUserWithBlankList(input, pieces, text) && user == Trim(Print(pieces)) {
      BlankListIsAccepted(s, pieces, text);
    }
  }

  lemma WholeMeansNoBracket(input: string)
    ensures Scan(input, Outside) == Whole <==> HasNoBracket(input)
  {
    if Scan(input, Outside) != Whole {
      var pieces := ReadUserText(input);
      var at := Scan(input, Outside).at;
      assert Print(pieces) == input[..at];
    } else {
      forall pieces, k | 0 <= k < |input| && IsUserText(pieces) && Print(pieces) == input[..k]
        ensures input[k] != '[' && input[k] != ']'
      {
        ScanFindsFirstBracket(input, k);
      }
    }
  }

  lemma BlankListShape(s: string) returns (pieces: seq<Piece>, text: string)
    requires SplitUser(s).Ok? && SplitUser(s).value.groups == None && Scan(Trim(s), Outside) != Whole
    ensures IsUserWithBlankList(Trim(s), pieces, text) && SplitUser(s).value.user == Trim(Print(pieces))
  {
    var start;
    start, text := AcceptedList(s);
    pieces := ReadUserText(Trim(s));
    BlankTextTrims(text);
  }

  lemma BlankTextTrims(text: string)
    ensures Trim(text) == "" <==> IsBlank(text)
  {
    if Trim(text) == "" {
      TrimStartDropsWhitespace(text);
    }
    if IsBlank(text) {
      BlankTrims(text);
    }
  }

  lemma BlankListIsAccepted(s: string, pieces: seq<Piece>, text: string)
    requires IsUserWithBlankList(Trim(s), pieces, text)
    ensures SplitUser(s) == Ok(UserText(Trim(Print(pieces)), None))
  {
    var input, user := Trim(s), Print(pieces);
    ScanOfPrinted(pieces, text);
    assert input[..|user|] == user && input[|user| + 1..|input| - 1] == text;
    BlankTrims(text);
  }

  /** A blank list, or names of which none is empty. */
  predicate IsListText(text: string) {
    '[' !in text && ']' !in text && (Trim(text) == "" || "" !in TrimAll(SplitAtCommas(text)))
  }

  /** What may follow an opening bracket: a list and one closing bracket. */
  predicate IsListRest(rest: string) {
    rest != "" && rest[|rest| - 1] == ']' && IsListText(rest[..|rest| - 1])
  }

  ghost predicate StopsBadly(input: string, pieces: seq<Piece>, bracket: char, rest: string) {
    && IsUserText(pieces) && input == Print(pieces) + ([bracket] + rest)
    && (bracket == ']' || (bracket == '[' && !IsListRest(rest)))
  }

  /** Inputs are refused exactly where a user text is followed by a closing bracket or by a malformed list. */
  lemma RefusesExactly(s: string)
    ensures SplitUser(s).Err? <==> exists pieces, bracket, rest :: StopsBadly(Trim(s), pieces, bracket, rest)
  {
    RefusedByScan(s);
    var input := Trim(s);
    if SplitUser(s).Err? {
      var pieces, bracket, rest := StoppedInput(input);
    }
    if pieces, bracket, rest :| StopsBadly(input, pieces, bracket, rest) {
      BadInputStopsScan(input, pieces, bracket, rest);
    }
  }

  /** Which refusal it is: what stands behind the first bracket decides. */
  lemma RefusalsSayWhy(s: string, pieces: seq<Piece>, bracket: char, rest: string)
    requires IsUserText(pieces) && Trim(s) == Print(pieces) + ([bracket] + rest)
    ensures bracket == ']' ==> SplitUser(s) == Err(UnexpectedDelimiter)
    ensures bracket == '[' && (rest == "" || rest[|rest| - 1] != ']') ==> SplitUser(s) == Err(UnterminatedList)
    ensures bracket == '[' && rest != "" && rest[|rest| - 1] == ']' ==>
      var text := rest[..|rest| - 1];
      && ('[' in text || ']' in text ==> SplitUser(s) == Err(NestedDelimiter))
      && ('[' !in text && ']' !in text && !IsBlank(text) && "" in TrimAll(SplitAtCommas(text)) ==>
            SplitUser(s) == Err(EmptyGroup))
  {
    StoppedAt(s, pieces, bracket, rest);
    if bracket == '[' {
      OpenedList(s, |Print(pieces)|, rest);
      if rest != "" {
        ListRefusalsSayWhy(Trim(Trim(s)[..|Print(pieces)|]), rest[..|rest| - 1]);
      }
    }
  }

  lemma StoppedAt(s: string, pieces: seq<Piece>, bracket: char, rest: string)
    requires IsUserText(pieces) && Trim(s) == Print(pieces) + ([bracket] + rest)
    ensures bracket == '[' ==> Scan(Trim(s), Outside) == Opens(|Print(pieces)|)
    ensures bracket == ']' ==> SplitUser(s) == Err(UnexpectedDelimiter)
    ensures Trim(s)[|Print(pieces)| + 1..] == rest
  {
    ScanOverUserText(pieces, [bracket] + rest);
    ScanStops(bracket, rest);
    TakeApart(Print(pieces), bracket, rest);
  }

  lemma OpenedList(s: string, at: nat, rest: string)
    requires Scan(Trim(s), Outside) == Opens(at) && Trim(s)[at + 1..] == rest
    ensures SplitUser(s) ==
      if rest == "" || rest[|rest| - 1] != ']' then Err(UnterminatedList)
      else SplitList(Trim(Trim(s)[..at]), rest[..|rest| - 1])
  {
    var input := Trim(s);
    assert SplitUser(s) ==
      if input[|input| - 1] != ']' then Err(UnterminatedList)
      else SplitList(Trim(input[..at]), input[at + 1..|input| - 1]);
    SplitAt(input, at);
    if rest == "" {
      assert |input| - 1 == at;
    }
  }

  lemma ListRefusalsSayWhy(user: string, text: string)
    ensures '[' in text || ']' in text ==> SplitList(user, text) == Err(NestedDelimiter)
    ensures '[' !in text && ']' !in text && !IsBlank(text) && "" in TrimAll(SplitAtCommas(text)) ==>
      SplitList(user, text) == Err(EmptyGroup)
  {
    BlankTextTrims(text);
  }

  lemma RefusedByScan(s: string)
    ensures var input, e := Trim(s), Scan(Trim(s), Outside);
      SplitUser(s).Err? <==> e.Closes? || (e.Opens? && !IsListRest(input[e.at + 1..]))
  {
    var input := Trim(s);
    var e := Scan(input, Outside);
    if e.Opens? {
      RefusedList(s, input, e.at);
    }
  }

  lemma RefusedList(s: string, input: string, at: nat)
    requires input == Trim(s) && Scan(input, Outside) == Opens(at)
    ensures SplitUser(s).Err? <==> !IsListRest(input[at + 1..])
  {
    var rest := input[at + 1..];
    OpenedList(s, at, rest);
    if rest != "" {
      ListRefusals(Trim(input[..at]), rest[..|rest| - 1]);
    }
  }

  lemma ListRefusals(user: string, text: string)
    ensures SplitList(user, text).Err? <==> !IsListText(text)
  {
  }

  lemma StoppedInput(input: string) returns (pieces: seq<Piece>, bracket: char, rest: string)
    requires var e := Scan(input, Outside); e.Closes? || (e.Opens? && !IsListRest(input[e.at + 1..]))
    ensures StopsBadly(input, pieces, bracket, rest)
  {
    var at := Scan(input, Outside).at;
    pieces := ReadUserText(input);
    bracket, rest := input[at], input[at + 1..];
    SplitAt(input, at);
  }

  lemma BadInputStopsScan(input: string, pieces: seq<Piece>, bracket: char, rest: string)
    requires StopsBadly(input, pieces, bracket, rest)
    ensures var e := Scan(input, Outside);
      e.Closes? || (e.Opens? && !IsListRest(input[e.at + 1..]))
  {
    ScanOverUserText(pieces, [bracket] + rest);
    ScanStops(bracket, rest);
    TakeApart(Print(pieces), bracket, rest);
  }

  lemma ScanStops(bracket: char, rest: string)
    ensures bracket == '[' ==> Scan([bracket] + rest, Outside) == Opens(0)
    ensures bracket == ']' ==> Scan([bracket] + rest, Outside) == Closes(0)
  {
  }

  lemma TakeApart(a: string, c: char, b: string)
    ensures var s := a + ([c] + b); s[..|a|] == a && s[|a|] == c && s[|a| + 1..] == b
  {
  }

  lemma SplitAt(input: string, at: nat)
    requires at < |input|
    ensures input == input[..at] + ([input[at]] + input[at + 1..])
    ensures var rest := input[at + 1..];
      rest != "" ==> rest[|rest| - 1] == input[|input| - 1] && rest[..|rest| - 1] == input[at + 1..|input| - 1]
  {
  }

  // ---------- Reprinting ----------

  lemma {:induction false} TrimStartOfUserText(pieces: seq<Piece>) returns (rest: seq<Piece>)
    requires IsUserText(pieces)
    ensures IsUserText(rest) && Print(rest) == TrimStart(Print(pieces))
  {
    rest := pieces;
    if pieces == [] || !(pieces[0].Plain? && IsWhitespace(pieces[0].c)) {
    } else {
      assert Print(pieces)[1..] == Print(pieces[1..]);
      rest := TrimStartOfUserText(pieces[1..]);
    }
  }

  lemma {:induction false} PrintAppends(pieces: seq<Piece>, last: Piece)
    ensures Print(pieces + [last]) == Print(pieces) + PrintPiece(last)
  {
    var all := pieces + [last];
    if pieces == [] {
      assert all[1..] == [];
    } else {
      PrintAppends(pieces[1..], last);
      assert all[1..] == pieces[1..] + [last];
      AppendAssociative(PrintPiece(pieces[0]), Print(pieces[1..]), PrintPiece(last));
    }
  }

  lemma {:induction false} TrimEndOfUserText(pieces: seq<Piece>) returns (rest: seq<Piece>)
    requires IsUserText(pieces)
    ensures IsUserText(rest) && Print(rest) == TrimEnd(Print(pieces))
  {
    rest := pieces;
    if pieces == [] {
    } else {
      var n := |pieces| - 1;
      assert pieces == pieces[..n] + [pieces[n]];
      PrintAppends(pieces[..n], pieces[n]);
      if pieces[n].Plain? && IsWhitespace(pieces[n].c) {
        assert Print(pieces)[..|Print(pieces)| - 1] == Print(pieces[..n]);
        rest := TrimEndOfUserText(pieces[..n]);
      }
    }
  }

  lemma ListNamesAreGroupNames(text: string)
    requires '[' !in text && ']' !in text && "" !in TrimAll(SplitAtCommas(text))
    ensures forall g | g in TrimAll(SplitAtCommas(text)) :: IsGroupName(g)
  {
    var parts := SplitAtCommas(text);
    forall g | g in TrimAll(parts) ensures IsGroupName(g) {
      var i :| 0 <= i < |parts| && g == Trim(parts[i]);
      assert parts[i] in parts;
      TrimKeepsCharacters(parts[i]);
    }
  }

  lemma TrimKeepsCharacters(s: string)
    ensures IsTrimmed(Trim(s))
    ensures forall c | c in Trim(s) :: c in s
  {
    TrimStartKeepsSuffix(s);
    assert forall c | c in Trim(s) :: c in TrimStart(s);
  }

  /** Every accepted user has a printed form that splits the same way. */
  lemma AcceptedUsersReprint(s: string)
    requires SplitUser(s).Ok? && SplitUser(s).value.groups.Some?
    ensures var u := SplitUser(s).value;
      && IsTrimmed(u.user) && u.groups.value != []
      && (forall g | g in u.groups.value :: IsGroupName(g))
      && (exists pieces :: IsUserText(pieces) && Print(pieces) == u.user)
      && SplitUser(PrintUser(u.user, u.groups.value, PRINTED_GAP)) == SplitUser(s)
  {
    var pieces, text := AcceptedShape(s);
    TrimKeepsCharacters(Print(pieces));
    var trimmed := TrimStartOfUserText(pieces);
    trimmed := TrimEndOfUserText(trimmed);
    ListNamesAreGroupNames(text);
    SplitInvertsPrint(trimmed, TrimAll(SplitAtCommas(text)), PRINTED_GAP);
  }
}
