/** Rendering the header block (`buildHeader`). */
module Render {

  import opened JsString
  import opened Wrappers
  import opened Style

  /** The 77 asterisks of the border line. */
  const BorderStars: string := Repeat('*', 77)

  /** The first and last template line, 79 columns wide. */
  const Border: string := " " + BorderStars + " "

  /** A template line of 79 spaces. */
  const BlankLine: string := Spaces(79)

  // The ASCII-art pieces of the template.
  const ArtTop := Spaces(58) + "__  __ ____  _  __   "
  const ArtUpper := Spaces(57) + "/ / / // __ \\| |/ /   "
  const ArtBesideName := "   / / / // / / /|   /    "
  const ArtMiddle := Spaces(55) + "/ /_/ // /_/ //   |     "
  const ArtBesideUser := "      \\____//_____//_/|_|     "

  /** The line naming the file, its name padded to 50 columns. */
  function FileLine(filename: string): string
  {
    "   " + PadEnd(filename, 50) + ArtBesideName
  }

  /** The line naming the author, padded to 42 columns. */
  function ByLine(user: string): string
  {
    "   By: " + PadEnd(user, 42) + ArtBesideUser
  }

  /** A `Created:` or `Updated:` line: the label, the timestamp and the author. */
  function StampLine(tag: string, stamp: string, user: string): string
  {
    "   " + tag + " " + stamp + " by " + PadEnd(user, 44)
  }

  /** The eleven template lines, before the comment delimiters are added. */
  function TemplateLines(filename: string, user: string, createdLine: string, updatedLine: string)
    : (ls: seq<string>)
    ensures |ls| == 11
    ensures ls[0] == Border && ls[10] == Border
    ensures forall k :: 0 <= k < 11 ==> |ls[k]| >= 2 && ls[k][0] == ' '
    ensures forall k :: 0 < k < 10 ==> ls[k][1] == ' '
  {
    var ls := [ Border,
                ArtTop,
                ArtUpper,
                FileLine(filename),
                ArtMiddle,
                ByLine(user),
                BlankLine,
                StampLine("Created:", createdLine, user),
                StampLine("Updated:", updatedLine, user),
                BlankLine,
                Border ];
    assert Border[0] == ' ' && Border[1] == '*';
    assert forall k :: 1 <= k < 10 ==> ls[k][0] == ' ' && ls[k][1] == ' ';
    ls
  }

  /** Every template line between the line prefix and the line suffix. */
  function Wrap(style: CommentStyle, ls: seq<string>): (ws: seq<string>)
    ensures |ws| == |ls|
  {
    seq(|ls|, k requires 0 <= k < |ls| => style.line + ls[k] + style.end)
  }

  /** The block opener on its own line, or nothing. */
  function StartLine(style: CommentStyle): string
  {
    if style.start != "" then style.start + "\n" else ""
  }

  /** The header text; `now` is the current time as the clock formats it, used
      for the `Updated:` line and for the `Created:` line when `created` is absent. */
  function BuildHeader(filename: string, user: string, created: Option<string>, now: string,
                       style: CommentStyle): (h: string)
    ensures |h| >= |StartLine(style)| + 2 && h[|h| - 2..] == "\n\n"
    ensures h[..|StartLine(style)|] == StartLine(style)
  {
    var createdLine := if created.Some? then created.value else now;
    var body := Join(Wrap(style, TemplateLines(filename, user, createdLine, now)), '\n');
    var h := StartLine(style) + body + "\n\n";
    assert h[..|StartLine(style)|] == StartLine(style);
    h
  }

  /** The lines of the header as `split('\n')` gives them back. */
  function HeaderLines(filename: string, user: string, createdLine: string, now: string,
                       style: CommentStyle): seq<string>
  {
    (if style.start != "" then [style.start] else [])
    + Wrap(style, TemplateLines(filename, user, createdLine, now)) + ["", ""]
  }

  /** No newline in the text put into the header. */
  predicate SingleLineFields(filename: string, user: string, createdLine: string, now: string,
                             style: CommentStyle)
  {
    '\n' !in filename && '\n' !in user && '\n' !in createdLine && '\n' !in now
    && '\n' !in style.start && '\n' !in style.line && '\n' !in style.end
  }

  /** The header is the optional opener line, then the eleven wrapped template
      lines joined by single newlines, then an empty line. */
  lemma HeaderLineStructure(filename: string, user: string, created: Option<string>, now: string,
                            style: CommentStyle)
    requires SingleLineFields(filename, user, if created.Some? then created.value else now, now, style)
    ensures var ls := HeaderLines(filename, user, if created.Some? then created.value else now, now, style);
            Split(BuildHeader(filename, user, created, now, style), '\n') == ls
            && |ls| == (if style.start != "" then 14 else 13)
  {
    var createdLine := if created.Some? then created.value else now;
    var ws := Wrap(style, TemplateLines(filename, user, createdLine, now));
    var ls := HeaderLines(filename, user, createdLine, now, style);
    JoinFraming(style, ws);
    WrappedSingleLine(filename, user, createdLine, now, style);
    assert forall k :: 0 <= k < |ls| ==> '\n' !in ls[k];
    SplitJoin(ls, '\n');
  }

  /** The opener line and the closing empty line are two more joined lines. */
  lemma JoinFraming(style: CommentStyle, ws: seq<string>)
    requires |ws| >= 1
    ensures StartLine(style) + Join(ws, '\n') + "\n\n"
         == Join((if style.start != "" then [style.start] else []) + ws + ["", ""], '\n')
  {
    if style.start != "" {
      JoinOpener(style.start, ws);
    } else {
      JoinNoOpener(ws);
    }
  }

  /** No opener line: only the two empty lines are added. */
  lemma JoinNoOpener(ws: seq<string>)
    requires |ws| >= 1
    ensures "" + Join(ws, '\n') + "\n\n" == Join([] + ws + ["", ""], '\n')
  {
    var none: seq<string> := [];
    assert none + ws == ws;
    assert "" + Join(ws, '\n') == Join(ws, '\n');
    JoinTwoEmpty(ws);
  }

  /** An opener line before the lines and two empty lines after them. */
  lemma JoinOpener(start: string, ws: seq<string>)
    requires |ws| >= 1
    ensures start + "\n" + Join(ws, '\n') + "\n\n" == Join([start] + ws + ["", ""], '\n')
  {
    var tail := ws + ["", ""];
    JoinTwoEmpty(ws);
    JoinAppend([start], tail, '\n');
    Assoc([start], ws, ["", ""]);
    Assoc(start + "\n", Join(ws, '\n'), "\n\n");
    assert Join([start], '\n') == start;
  }

  /** Two empty lines after the last one add two newlines. */
  lemma JoinTwoEmpty(ws: seq<string>)
    requires |ws| >= 1
    ensures Join(ws + ["", ""], '\n') == Join(ws, '\n') + "\n\n"
  {
    var two: seq<string> := ["", ""];
    JoinAppend(ws, two, '\n');
    assert two[1..] == [""];
    assert Join(two, '\n') == "\n";
    Assoc(Join(ws, '\n'), "\n", "\n");
  }

  /** No wrapped template line contains a newline. */
  lemma WrappedSingleLine(filename: string, user: string, createdLine: string, now: string,
                          style: CommentStyle)
    requires SingleLineFields(filename, user, createdLine, now, style)
    ensures var ws := Wrap(style, TemplateLines(filename, user, createdLine, now));
            forall k :: 0 <= k < |ws| ==> '\n' !in ws[k]
  {
    var ts := TemplateLines(filename, user, createdLine, now);
    TemplateSingleLine(filename, user, createdLine, now);
    var ws := Wrap(style, ts);
    forall k | 0 <= k < |ws| ensures '\n' !in ws[k] {
      assert ws[k] == style.line + ts[k] + style.end;
    }
  }

  /** No template line contains a newline. */
  lemma TemplateSingleLine(filename: string, user: string, createdLine: string, now: string)
    requires '\n' !in filename && '\n' !in user && '\n' !in createdLine && '\n' !in now
    ensures var ts := TemplateLines(filename, user, createdLine, now);
            forall k :: 0 <= k < |ts| ==> '\n' !in ts[k]
  {
    ArtSingleLine();
    NamedLinesSingle(filename, user);
    StampLinesSingle(user, createdLine, now);
  }

  /** The fixed lines of the template contain no newline. */
  lemma ArtSingleLine()
    ensures '\n' !in Border && '\n' !in BlankLine
    ensures '\n' !in ArtTop && '\n' !in ArtUpper && '\n' !in ArtMiddle
  {
    assert '\n' !in Border;
    assert '\n' !in ArtTop;
    assert '\n' !in ArtUpper;
    assert '\n' !in ArtMiddle;
  }

  /** The file and author lines contain no newline when their fields do not. */
  lemma NamedLinesSingle(filename: string, user: string)
    requires '\n' !in filename && '\n' !in user
    ensures '\n' !in FileLine(filename) && '\n' !in ByLine(user)
  {
    assert '\n' !in FileLine(filename);
  }

  /** The timestamp lines contain no newline when their fields do not. */
  lemma StampLinesSingle(user: string, createdLine: string, now: string)
    requires '\n' !in user && '\n' !in createdLine && '\n' !in now
    ensures '\n' !in StampLine("Created:", createdLine, user)
    ensures '\n' !in StampLine("Updated:", now, user)
  {
    assert '\n' !in StampLine("Created:", createdLine, user);
  }

  /** With a filename of at most 50 characters, an author of at most 42 and
      19-character timestamps, every template line is 79 columns wide. */
  lemma FixedWidth(filename: string, user: string, createdLine: string, now: string)
    requires |filename| <= 50 && |user| <= 42 && |createdLine| == 19 && |now| == 19
    ensures forall k :: 0 <= k < 11 ==> |TemplateLines(filename, user, createdLine, now)[k]| == 79
  {
  }

  /** A missing creation time renders exactly as the current time given explicitly. */
  lemma NullCreatedIsNow(filename: string, user: string, now: string, style: CommentStyle)
    ensures BuildHeader(filename, user, None, now, style) == BuildHeader(filename, user, Some(now), now, style)
  {
  }
}
