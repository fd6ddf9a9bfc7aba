/**
 The beta-code manager (manage_beta_code.py): it reads and rewrites the
 `BETA_CODE = ...` line of the configuration file as plain text. The file
 system is abstracted away: a file is its content, or `None` when it does
 not exist, and a rewrite returns the content that would be written.
 */
module BetaCode {
  import opened Text
  import opened Options

  const Key := "BETA_CODE"
  const DefaultCode := "moodtracker2024"
  const Comment := "  # Change this to your desired beta code"

  /** A line whose stripped form starts with `BETA_CODE`. */
  predicate IsBetaLine(line: string) {
    StartsWith(Strip(line), Key)
  }

  /** The index of the first line satisfying `p`, if any. */
  function FirstWhere(lines: seq<string>, p: string -> bool): (r: Option<nat>)
    ensures r.None? <==> forall j :: 0 <= j < |lines| ==> !p(lines[j])
    ensures r.Some? ==> r.value < |lines| && p(lines[r.value])
    ensures r.Some? ==> forall j :: 0 <= j < r.value ==> !p(lines[j])
  {
    if |lines| == 0 then None
    else if p(lines[0]) then Some(0)
    else
      assert forall j :: 1 <= j < |lines| ==> lines[j] == lines[1..][j - 1];
      match FirstWhere(lines[1..], p)
      case None => None
      case Some(i) => Some(i + 1)
  }

  /** The index of the first `BETA_CODE` line, if any: the line both loops of the script stop at. */
  function FirstBetaLine(lines: seq<string>): (r: Option<nat>)
    ensures r.None? <==> forall j :: 0 <= j < |lines| ==> !IsBetaLine(lines[j])
    ensures r.Some? ==> r.value < |lines| && IsBetaLine(lines[r.value])
    ensures r.Some? ==> forall j :: 0 <= j < r.value ==> !IsBetaLine(lines[j])
  {
    FirstWhere(lines, IsBetaLine)
  }

  /**
   `line.split('=')[1].strip().strip('"\'')`: the text between the first and
   the second `=`, trimmed of whitespace and then of quote characters at both
   ends. `None` when the line has no `=` and the indexing raises.
   */
  function ExtractValue(line: string): (v: Option<string>)
    ensures v.None? <==> '=' !in line
    ensures v.Some? ==>
      var rest := line[IndexOf(line, '=') + 1..];
      v.value == StripBy(Strip(rest[..IndexOf(rest, '=')]), IsQuote)
  {
    var pieces := Split(line, '=');
    SplitHead(line, '=');
    if |pieces| < 2 then None
    else
      SplitHead(line[IndexOf(line, '=') + 1..], '=');
      Some(StripBy(Strip(pieces[1]), IsQuote))
  }

  datatype ReadResult = Code(code: string) | NoCode | Crash

  /**
   `show_current_beta_code`: the default code when the file is missing; the
   value of the first `BETA_CODE` line; nothing when no line matches; and an
   uncaught exception when that line has no `=`.
   */
  function ShowCurrentBetaCode(file: Option<string>): (r: ReadResult)
    ensures file.None? ==> r == Code(DefaultCode)
    ensures file.Some? ==> (r == NoCode <==> FirstBetaLine(Split(file.value, '\n')).None?)
    ensures file.Some? && FirstBetaLine(Split(file.value, '\n')).Some? ==>
      var line := Split(file.value, '\n')[FirstBetaLine(Split(file.value, '\n')).value];
      && (r == Crash <==> '=' !in line)
      && ('=' in line ==> r == Code(ExtractValue(line).value))
  {
    match file
    case None => Code(DefaultCode)
    case Some(content) =>
      var lines := Split(content, '\n');
      match FirstBetaLine(lines)
      case None => NoCode
      case Some(i) =>
        match ExtractValue(lines[i])
        case None => Crash
        case Some(v) => Code(v)
  }

  /** The quoted code and trailing comment that follow `BETA_CODE = ` on the written line. */
  function Quoted(code: string): string {
    "\"" + code + "\"" + Comment
  }

  /** The line `change_beta_code` writes: the new code in double quotes after `BETA_CODE = `, then the fixed comment. */
  function Template(code: string): (line: string)
    ensures line == Key + " = \"" + code + "\"" + Comment
    ensures '\n' !in code ==> '\n' !in line
  {
    "BETA_CODE = " + Quoted(code)
  }

  /** The written line is itself a `BETA_CODE` line. */
  lemma TemplateIsBetaLine(code: string)
    ensures IsBetaLine(Template(code))
  {
    var line := Template(code);
    StripByKeeps(line, IsSpace);
    assert line[..9] == Key;
  }

  /** Replace the first `BETA_CODE` line, leave every other line as it is. */
  function ReplaceFirstBetaLine(lines: seq<string>, newLine: string): (r: seq<string>)
    ensures |r| == |lines|
    ensures FirstBetaLine(lines).None? ==> r == lines
    ensures FirstBetaLine(lines).Some? ==>
      && r[FirstBetaLine(lines).value] == newLine
      && forall j :: 0 <= j < |lines| && j != FirstBetaLine(lines).value ==> r[j] == lines[j]
  {
    match FirstBetaLine(lines)
    case None => lines
    case Some(i) => lines[i := newLine]
  }

  datatype ChangeResult = Written(content: string) | Failed | Rejected

  /** `change_beta_code`: a missing file fails; otherwise split on newlines, replace, join and write back. */
  function ChangeBetaCode(file: Option<string>, code: string): (r: ChangeResult)
    ensures r != Rejected
    ensures r == Failed <==> file.None?
    ensures r.Written? && '\n' !in code ==>
      Split(r.content, '\n') == ReplaceFirstBetaLine(Split(file.value, '\n'), Template(code))
  {
    match file
    case None => Failed
    case Some(content) =>
      var lines := ReplaceFirstBetaLine(Split(content, '\n'), Template(code));
      var written := Join(lines, '\n');
      assert '\n' !in code ==> Split(written, '\n') == lines by {
        if '\n' !in code {
          var original := Split(content, '\n');
          forall k | 0 <= k < |lines| ensures '\n' !in lines[k] {
            if lines[k] != original[k] {
              assert lines[k] == Template(code);
            }
          }
          SplitJoin(lines, '\n');
        }
      }
      Written(written)
  }

  /** The menu's "change" choice: the typed code is stripped and an empty one is refused before any rewrite. */
  function ChangeFromInput(file: Option<string>, input: string): (r: ChangeResult)
    ensures r == Rejected <==> Strip(input) == []
    ensures r != Rejected ==> r == ChangeBetaCode(file, Strip(input))
  {
    var code := Strip(input);
    if code == [] then Rejected else ChangeBetaCode(file, code)
  }

  /** A file without a `BETA_CODE` line is written back exactly as it was. */
  lemma ChangeWithoutBetaLineKeepsFile(content: string, code: string)
    requires forall j :: 0 <= j < |Split(content, '\n')| ==> !IsBetaLine(Split(content, '\n')[j])
    ensures ChangeBetaCode(Some(content), code) == Written(content)
  {
    JoinSplit(content, '\n');
  }

  /** The rewrite keeps the number of lines and every line except the first `BETA_CODE` one. */
  lemma ChangeKeepsOtherLines(content: string, code: string)
    requires '\n' !in code
    ensures var before := Split(content, '\n');
      var after := Split(ChangeBetaCode(Some(content), code).content, '\n');
      && |after| == |before|
      && (forall j :: 0 <= j < |before| && (exists k :: 0 <= k < j && IsBetaLine(before[k])) ==> after[j] == before[j])
      && (forall j :: 0 <= j < |before| && !IsBetaLine(before[j]) ==> after[j] == before[j])
  {
  }

  /**
   Reading the code back after a change does not give the new code: only the
   leading quote is removed, so the closing quote and the trailing comment stay.
   */
  lemma ReadBackKeepsComment(content: string, code: string)
    requires FirstBetaLine(Split(content, '\n')).Some?
    requires |code| > 0 && !IsQuote(code[0])
    requires '=' !in code && '\n' !in code
    ensures ShowCurrentBetaCode(Some(ChangeBetaCode(Some(content), code).content))
      == Code(code + "\"" + Comment)
    ensures ShowCurrentBetaCode(Some(ChangeBetaCode(Some(content), code).content)) != Code(code)
  {
    var line := Template(code);
    var before := Split(content, '\n');
    var after := Split(ChangeBetaCode(Some(content), code).content, '\n');
    var i := FirstBetaLine(before).value;
    assert after == ReplaceFirstBetaLine(before, line);
    TemplateIsBetaLine(code);
    FirstWhereIs(after, IsBetaLine, i);
    TemplateValue(code);
  }

  // ---------------------------------------------------------------- the intended read-back

  /**
   The value `show_current_beta_code` evidently means to show: the same
   reading with the trailing `#` comment cut off before trimming,
   `line.split('=')[1].split('#')[0].strip().strip('"\'')`.
   */
  function IntendedValue(line: string): (v: Option<string>)
    ensures v.None? <==> '=' !in line
    ensures v.Some? ==>
      var rest := line[IndexOf(line, '=') + 1..];
      var field := rest[..IndexOf(rest, '=')];
      v.value == StripBy(Strip(field[..IndexOf(field, '#')]), IsQuote)
  {
    var pieces := Split(line, '=');
    SplitHead(line, '=');
    if |pieces| < 2 then None
    else
      SplitHead(line[IndexOf(line, '=') + 1..], '=');
      var field := pieces[1];
      Some(StripBy(Strip(field[..IndexOf(field, '#')]), IsQuote))
  }

  /** `show_current_beta_code` with the intended value reading; every other outcome is unchanged. */
  function ShowIntendedBetaCode(file: Option<string>): (r: ReadResult)
    ensures file.None? ==> r == Code(DefaultCode)
    ensures r.Code? <==> ShowCurrentBetaCode(file).Code?
    ensures !r.Code? ==> r == ShowCurrentBetaCode(file)
    ensures file.Some? && FirstBetaLine(Split(file.value, '\n')).Some? && r.Code? ==>
      r.code == IntendedValue(Split(file.value, '\n')[FirstBetaLine(Split(file.value, '\n')).value]).value
  {
    match file
    case None => Code(DefaultCode)
    case Some(content) =>
      var lines := Split(content, '\n');
      match FirstBetaLine(lines)
      case None => NoCode
      case Some(i) =>
        match IntendedValue(lines[i])
        case None => Crash
        case Some(v) => Code(v)
  }

  /** With the intended reading, showing the code after changing it gives back exactly the new code. */
  lemma ChangeThenShowIntended(content: string, code: string)
    requires FirstBetaLine(Split(content, '\n')).Some?
    requires |code| > 0 && !IsQuote(code[0]) && !IsQuote(code[|code| - 1])
    requires '=' !in code && '#' !in code && '\n' !in code
    ensures ShowIntendedBetaCode(Some(ChangeBetaCode(Some(content), code).content)) == Code(code)
  {
    var line := Template(code);
    var before := Split(content, '\n');
    var after := Split(ChangeBetaCode(Some(content), code).content, '\n');
    var i := FirstBetaLine(before).value;
    assert after == ReplaceFirstBetaLine(before, line);
    TemplateIsBetaLine(code);
    FirstWhereIs(after, IsBetaLine, i);
    TemplateIntendedValue(code);
  }

  /** The value the intended reading takes from the written line. */
  lemma TemplateIntendedValue(code: string)
    requires |code| > 0 && !IsQuote(code[0]) && !IsQuote(code[|code| - 1])
    requires '=' !in code && '#' !in code
    ensures IntendedValue(Template(code)) == Some(code)
  {
    var rest := [' '] + Quoted(code);
    TemplateSplitsAtFirstEquals(code);
    NoEqualsAfterKey(code);
    IndexOfIs(rest, '=', |rest|);
    assert rest[..|rest|] == rest;
    var cut := [' '] + ([ '"' ] + code + [ '"' ]) + [' ', ' '];
    CommentShape();
    assert rest == cut + Comment[2..];
    IndexOfIs(rest, '#', |cut|);
    assert rest[..|cut|] == cut;
    StripOfCut(code);
    QuoteStripOfBare(code);
  }

  lemma StripOfCut(code: string)
    ensures Strip([' '] + ([ '"' ] + code + [ '"' ]) + [' ', ' ']) == [ '"' ] + code + [ '"' ]
  {
    var q := [ '"' ] + code + [ '"' ];
    var tail := q + [' ', ' '];
    assert [' '] + q + [' ', ' '] == [' '] + tail;
    LStripSkips(' ', tail, IsSpace);
    LStripKeepsQuoted(tail);
    RStripOfPadded(q);
  }

  lemma LStripKeepsQuoted(s: string)
    requires |s| > 0 && s[0] == '"'
    ensures LStrip(s, IsSpace) == s
  {
  }

  lemma RStripOfPadded(q: string)
    requires |q| > 0 && q[|q| - 1] == '"'
    ensures RStrip(q + [' ', ' '], IsSpace) == q
  {
    assert q + [' ', ' '] == (q + [' ']) + [' '];
    RStripSkips(q + [' '], ' ', IsSpace);
    RStripSkips(q, ' ', IsSpace);
    assert !IsSpace(q[|q| - 1]);
  }

  lemma QuoteStripOfBare(code: string)
    requires |code| > 0 && !IsQuote(code[0]) && !IsQuote(code[|code| - 1])
    ensures StripBy([ '"' ] + code + [ '"' ], IsQuote) == code
  {
    var q := [ '"' ] + code + [ '"' ];
    assert q == [ '"' ] + (code + [ '"' ]);
    LStripSkips('"', code + [ '"' ], IsQuote);
    assert LStrip(code + [ '"' ], IsQuote) == code + [ '"' ];
    RStripSkips(code, '"', IsQuote);
    assert RStrip(code, IsQuote) == code;
  }

  lemma CommentShape()
    ensures Comment == [' ', ' '] + Comment[2..] && Comment[2] == '#'
  {
  }

  /** The first index satisfying `p` is the one before which nothing does. */
  lemma FirstWhereIs(lines: seq<string>, p: string -> bool, i: nat)
    requires i < |lines| && p(lines[i])
    requires forall j :: 0 <= j < i ==> !p(lines[j])
    ensures FirstWhere(lines, p) == Some(i)
  {
  }

  /** The value `ExtractValue` reads from the written line. */
  lemma TemplateValue(code: string)
    requires |code| > 0 && !IsQuote(code[0])
    requires '=' !in code
    ensures ExtractValue(Template(code)) == Some(code + "\"" + Comment)
  {
    var line := Template(code);
    var rest := [' '] + Quoted(code);
    TemplateSplitsAtFirstEquals(code);
    assert line[10] == '=';
    NoEqualsAfterKey(code);
    IndexOfIs(rest, '=', |rest|);
    assert rest[..|rest|] == rest;
    StripOfQuoted(code);
    QuoteStripOfQuoted(code);
  }

  lemma TemplateSplitsAtFirstEquals(code: string)
    ensures IndexOf(Template(code), '=') == 10
    ensures Template(code)[11..] == [' '] + Quoted(code)
  {
    var line := Template(code);
    assert line == "BETA_CODE =" + ([' '] + Quoted(code));
    assert line[..10] == "BETA_CODE ";
    IndexOfIs(line, '=', 10);
  }

  lemma NoEqualsAfterKey(code: string)
    requires '=' !in code
    ensures '=' !in [' '] + Quoted(code)
  {
    assert '=' !in Comment;
  }

  lemma StripOfQuoted(code: string)
    ensures Strip([' '] + Quoted(code)) == Quoted(code)
  {
    var q := Quoted(code);
    QuotedEnds(code);
    LStripSkips(' ', q, IsSpace);
    LStripKeepsQuoted(q);
    RStripKeepsLetter(q);
  }

  lemma QuotedEnds(code: string)
    ensures |Quoted(code)| > 0 && Quoted(code)[0] == '"' && Quoted(code)[|Quoted(code)| - 1] == 'e'
  {
    var q := Quoted(code);
    assert q == ['"'] + (code + "\"" + Comment);
    assert Comment[|Comment| - 1] == 'e';
  }

  lemma RStripKeepsLetter(s: string)
    requires |s| > 0 && s[|s| - 1] == 'e'
    ensures RStrip(s, IsSpace) == s
  {
  }

  lemma QuoteStripOfQuoted(code: string)
    requires |code| > 0 && !IsQuote(code[0])
    ensures StripBy(Quoted(code), IsQuote) == code + "\"" + Comment
  {
    var v := code + "\"" + Comment;
    assert Quoted(code) == [ '"' ] + v;
    LStripSkips('"', v, IsQuote);
    assert v[0] == code[0] && v[|v| - 1] == 'e';
    StripByKeeps(v, IsQuote);
    assert LStrip(v, IsQuote) == v;
  }

  /** `IndexOf` finds exactly the first occurrence (or the end when there is none). */
  lemma IndexOfIs(s: string, c: char, i: nat)
    requires i <= |s| && c !in s[..i] && (i < |s| ==> s[i] == c)
    ensures IndexOf(s, c) == i
  {
    var j := IndexOf(s, c);
    assert forall k :: 0 <= k < i ==> s[k] == s[..i][k];
    assert forall k :: 0 <= k < j ==> s[k] == s[..j][k];
  }
}
