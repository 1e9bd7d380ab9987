/**
  The decisions the two handlers make once the editor calls are taken away:
  the insert command adds a header only to a document without one, and the
  will-save handler replaces a found header with a re-rendered one that keeps
  its creation time.
 */
module Handlers {

  import opened JsString
  import opened Wrappers
  import opened Style
  import opened Render
  import opened HeaderScan
  import opened HeaderLocate
  import opened HeaderRoundTrip

  /** What the handlers read from a document: its path, its language and its text. */
  datatype Document = Document(fileName: string, languageId: string, text: string)

  /** The author shown when none is configured. */
  const DefaultUser: string := "0xTokkyo"

  /** `path.split('/').pop() || path`: the part after the last `/`, or the
      whole path when that part is empty. */
  function Basename(path: string): (name: string)
    ensures (path == [] || path[|path| - 1] == '/') ==> name == path
    ensures path != [] && path[|path| - 1] != '/' ==>
              name != [] && '/' !in name && |name| <= |path| && path[|path| - |name|..] == name
              && (|name| == |path| || path[|path| - |name| - 1] == '/')
  {
    var pieces := Split(path, '/');
    LastPiece(path, pieces);
    var last := pieces[|pieces| - 1];
    if last != "" then last else path
  }

  /** The last piece of a split is the text after the last separator. */
  lemma LastPiece(path: string, pieces: seq<string>)
    requires pieces == Split(path, '/')
    ensures var last := pieces[|pieces| - 1];
            |last| <= |path| && path[|path| - |last|..] == last
            && (|last| == |path| || path[|path| - |last| - 1] == '/')
  {
    var last := pieces[|pieces| - 1];
    if |pieces| >= 2 {
      JoinLast(pieces, '/');
      var init := Join(pieces[..|pieces| - 1], '/');
      assert path == init + ['/'] + last;
      assert path[|path| - |last|..] == last;
      assert path[|path| - |last| - 1] == (init + ['/'] + last)[|init|];
    } else {
      assert path == last;
    }
  }

  /** The configured author, or the default when the setting is unset or empty. */
  function GithubUser(setting: Option<string>): (user: string)
    ensures user != []
    ensures setting.Some? && setting.value != [] ==> user == setting.value
    ensures (setting.None? || setting.value == []) ==> user == DefaultUser
  {
    if setting.Some? && setting.value != [] then setting.value else DefaultUser
  }

  /** What the insert command does. */
  datatype InsertOutcome = NoActiveEditor | AlreadyPresent | Insert(header: string)

  /** The insert command: nothing without an editor, nothing when the document
      already has a header, else a fresh header with the current time as both
      creation and update time, to be put at the very start of the text. */
  function InsertHeaderCommand(editor: Option<Document>, setting: Option<string>,
                               table: DelimiterTable, now: string): (r: InsertOutcome)
    ensures r.NoActiveEditor? <==> editor.None?
    ensures editor.Some? ==>
              var style := GetCommentStyle(table, editor.value.languageId);
              (r.AlreadyPresent? <==> HasTwoMarkers(editor.value.text, Marker(style)))
    ensures r.Insert? ==>
              r.header == BuildHeader(Basename(editor.value.fileName), GithubUser(setting), Some(now), now,
                                      GetCommentStyle(table, editor.value.languageId))
  {
    if editor.None? then NoActiveEditor
    else
      var doc := editor.value;
      var style := GetCommentStyle(table, doc.languageId);
      var filename := Basename(doc.fileName);
      var user := GithubUser(setting);
      LocateNoneIff(doc.text, style);
      if Locate(doc.text, style).Some? then AlreadyPresent
      else
        NullCreatedIsNow(filename, user, now, style);
        Insert(BuildHeader(filename, user, None, now, style))
  }

  /** The text after the header is inserted at line 0, column 0. */
  function InsertAtStart(text: string, header: string): (r: string)
    ensures |r| == |header| + |text| && r[..|header|] == header && r[|header|..] == text
  {
    header + text
  }

  /** Running the insert command again on the document it produced finds the
      header it inserted, whenever it runs. */
  lemma InsertIdempotent(doc: Document, setting: Option<string>, table: DelimiterTable,
                         now: string, later: string)
    requires InsertHeaderCommand(Some(doc), setting, table, now).Insert?
    ensures var h := InsertHeaderCommand(Some(doc), setting, table, now).header;
            var doc2 := doc.(text := InsertAtStart(doc.text, h));
            InsertHeaderCommand(Some(doc2), setting, table, later) == AlreadyPresent
  {
    var style := GetCommentStyle(table, doc.languageId);
    var user := GithubUser(setting);
    var filename := Basename(doc.fileName);
    var h := InsertHeaderCommand(Some(doc), setting, table, now).header;
    HeaderFoundAgain(filename, user, Some(now), now, style, doc.text);
    LocateNoneIff(h + doc.text, style);
  }

  /** A replacement of the text between two offsets. */
  datatype TextEdit = Replace(start: nat, end: nat, newText: string)

  /** The will-save handler: no edit when no header is found, else one edit
      replacing the header's span with a header rendered from the current
      filename, author and time and the creation time read from the span. */
  function WillSaveEdits(doc: Document, setting: Option<string>, table: DelimiterTable,
                         now: string): (edits: seq<TextEdit>)
    ensures var style := GetCommentStyle(table, doc.languageId);
            (edits == [] <==> !HasTwoMarkers(doc.text, Marker(style)))
    ensures |edits| <= 1 && (edits != [] ==> Applies(doc.text, edits[0]))
    ensures edits != [] ==>
              var span := Locate(doc.text, GetCommentStyle(table, doc.languageId)).value;
              edits[0].start == span.start && edits[0].end == span.end && span.end <= |doc.text|
              && edits[0].newText == BuildHeader(Basename(doc.fileName), GithubUser(setting), span.created,
                                                 now, GetCommentStyle(table, doc.languageId))
  {
    var style := GetCommentStyle(table, doc.languageId);
    LocateNoneIff(doc.text, style);
    match Locate(doc.text, style)
    case None => []
    case Some(span) =>
      [Replace(span.start, span.end,
               BuildHeader(Basename(doc.fileName), GithubUser(setting), span.created, now, style))]
  }

  /** An edit applies to a text when its offsets are in order and inside it. */
  predicate Applies(text: string, e: TextEdit)
  {
    e.start <= e.end <= |text|
  }

  /** The text after an edit: what precedes the span, the new text, what follows the span. */
  function ApplyEdit(text: string, e: TextEdit): (r: string)
    requires Applies(text, e)
    ensures |r| == |text| - (e.end - e.start) + |e.newText|
    ensures r[..e.start] == text[..e.start]
    ensures r[e.start..e.start + |e.newText|] == e.newText
    ensures r[e.start + |e.newText|..] == text[e.end..]
  {
    var r := text[..e.start] + e.newText + text[e.end..];
    assert r[..e.start] == text[..e.start];
    assert r[e.start..e.start + |e.newText|] == e.newText;
    r
  }

  /** The text after the edits the will-save handler returns. */
  function ApplyEdits(text: string, edits: seq<TextEdit>): string
    requires |edits| <= 1 && (edits != [] ==> Applies(text, edits[0]))
  {
    if edits == [] then text else ApplyEdit(text, edits[0])
  }

  /** The document after one save. */
  function Save(doc: Document, setting: Option<string>, table: DelimiterTable, now: string): (d: Document)
    ensures d.fileName == doc.fileName && d.languageId == doc.languageId
  {
    var edits := WillSaveEdits(doc, setting, table, now);
    doc.(text := ApplyEdits(doc.text, edits))
  }

  /** Saving a document without a header leaves it as it is. */
  lemma SaveWithoutHeaderChangesNothing(doc: Document, setting: Option<string>, table: DelimiterTable,
                                        now: string)
    requires !HasTwoMarkers(doc.text, Marker(GetCommentStyle(table, doc.languageId)))
    ensures Save(doc, setting, table, now) == doc
  {
  }

  /** What the save lemmas need of the filename, the author and a time. */
  predicate SaveRecoverable(doc: Document, setting: Option<string>, table: DelimiterTable,
                            created: string, now: string)
  {
    var style := GetCommentStyle(table, doc.languageId);
    Recoverable(Basename(doc.fileName), GithubUser(setting), created, now, style) && SuffixOnlyAtEnd(style)
  }

  /** Saving a document whose header spans `span` replaces that span, and
      nothing else, with a header rendered now from the creation time the span
      holds. */
  lemma SaveReplacesSpan(doc: Document, setting: Option<string>, table: DelimiterTable, now: string,
                         span: HeaderSpan)
    requires Locate(doc.text, GetCommentStyle(table, doc.languageId)) == Some(span)
    ensures span.start <= span.end <= |doc.text|
    ensures Save(doc, setting, table, now).text
            == doc.text[..span.start]
               + BuildHeader(Basename(doc.fileName), GithubUser(setting), span.created, now,
                             GetCommentStyle(table, doc.languageId))
               + doc.text[span.end..]
  {
    LocateNoneIff(doc.text, GetCommentStyle(table, doc.languageId));
  }

  /** Saving a document whose header is a prefix `h` of its text, with the
      newlines after it, keeps the text after those newlines. */
  lemma SaveAfterPrefix(doc: Document, setting: Option<string>, table: DelimiterTable, now: string,
                        h: string, rest: string, created: Option<string>, user: Option<string>)
    requires doc.text == h + rest
    requires Locate(doc.text, GetCommentStyle(table, doc.languageId))
             == Some(HeaderSpan(0, |h| + LeadingNewlines(rest), created, user))
    ensures Save(doc, setting, table, now).text
            == BuildHeader(Basename(doc.fileName), GithubUser(setting), created, now,
                           GetCommentStyle(table, doc.languageId))
               + rest[LeadingNewlines(rest)..]
  {
    var style := GetCommentStyle(table, doc.languageId);
    var span := Locate(doc.text, style).value;
    SaveReplacesSpan(doc, setting, table, now, span);
    var b := BuildHeader(Basename(doc.fileName), GithubUser(setting), span.created, now, style);
    SpliceAtStart(doc.text, h, rest, LeadingNewlines(rest), span.start, span.end, b);
  }

  /** Replacing a prefix `h` of a text, with the next `n` characters, by `b`. */
  lemma SpliceAtStart(t: string, h: string, rest: string, n: nat, start: nat, end: nat, b: string)
    requires t == h + rest && n <= |rest| && start == 0 && end == |h| + n
    ensures t[..start] + b + t[end..] == b + rest[n..]
  {
    assert t[end..] == rest[n..];
  }

  /** Saving a document that starts with a rendered header replaces that header
      and the newlines after it by a header rendered now with the same creation
      time; the text after them is kept. */
  lemma SaveKeepsCreated(doc: Document, setting: Option<string>, table: DelimiterTable,
                         filename: string, user: string, created: string, updated: string,
                         rest: string, now: string)
    requires var style := GetCommentStyle(table, doc.languageId);
             doc.text == BuildHeader(filename, user, Some(created), updated, style) + rest
             && Recoverable(filename, user, created, updated, style) && SuffixOnlyAtEnd(style)
    ensures Save(doc, setting, table, now).text
            == BuildHeader(Basename(doc.fileName), GithubUser(setting), Some(created), now,
                           GetCommentStyle(table, doc.languageId))
               + rest[LeadingNewlines(rest)..]
  {
    var style := GetCommentStyle(table, doc.languageId);
    var h := BuildHeader(filename, user, Some(created), updated, style);
    var end := SpanCoversHeader(filename, user, created, updated, style, rest, h, doc.text);
    SaveAfterPrefix(doc, setting, table, now, h, rest, Some(created), Some(user));
  }

  /** The document after a save at each of the given times, in order. */
  function SaveAll(doc: Document, setting: Option<string>, table: DelimiterTable,
                   nows: seq<string>): (d: Document)
    ensures d.fileName == doc.fileName && d.languageId == doc.languageId
    decreases |nows|
  {
    if nows == [] then doc else SaveAll(Save(doc, setting, table, nows[0]), setting, table, nows[1..])
  }

  /** Leading newlines are absorbed once: what follows them starts with none. */
  lemma StripsOnce(rest: string)
    ensures var r := rest[LeadingNewlines(rest)..];
            LeadingNewlines(r) == 0 && r[LeadingNewlines(r)..] == r
  {
  }

  /** However many times a document that starts with a rendered header is
      saved, it keeps that header's creation time; the header shows the last
      save's time, and the text after the header is kept. */
  lemma SavesKeepCreated(doc: Document, setting: Option<string>, table: DelimiterTable,
                         filename: string, user: string, created: string,
                         updated: string, rest: string, nows: seq<string>)
    requires var style := GetCommentStyle(table, doc.languageId);
             doc.text == BuildHeader(filename, user, Some(created), updated, style) + rest
             && Recoverable(filename, user, created, updated, style) && SuffixOnlyAtEnd(style)
    requires forall k :: 0 <= k < |nows| ==> SaveRecoverable(doc, setting, table, created, nows[k])
    requires nows != []
    ensures SaveAll(doc, setting, table, nows).text
            == BuildHeader(Basename(doc.fileName), GithubUser(setting), Some(created), nows[|nows| - 1],
                           GetCommentStyle(table, doc.languageId))
               + rest[LeadingNewlines(rest)..]
  {
    var style := GetCommentStyle(table, doc.languageId);
    var name, login := Basename(doc.fileName), GithubUser(setting);
    var h := BuildHeader(filename, user, Some(created), updated, style);
    var last := BuildHeader(name, login, Some(created), nows[|nows| - 1], style);
    var tail := rest[LeadingNewlines(rest)..];
    assert forall k :: 0 <= k < |nows| ==> Recoverable(name, login, created, nows[k], style) by {
      forall k | 0 <= k < |nows|
        ensures Recoverable(name, login, created, nows[k], style)
      {
        assert SaveRecoverable(doc, setting, table, created, nows[k]);
      }
    }
    SavesKeepHeader(doc, setting, table, style, name, login, filename, user, created, updated,
                    h, rest, nows, last, tail);
  }

  /** The induction behind `SavesKeepCreated`, with every rendered header
      named by a parameter. */
  lemma {:induction false} SavesKeepHeader(doc: Document, setting: Option<string>, table: DelimiterTable,
                                           style: CommentStyle, name: string, login: string,
                                           filename: string, user: string, created: string,
                                           updated: string, h: string, rest: string,
                                           nows: seq<string>, last: string, tail: string)
    requires style == GetCommentStyle(table, doc.languageId)
    requires name == Basename(doc.fileName) && login == GithubUser(setting)
    requires h == BuildHeader(filename, user, Some(created), updated, style) && doc.text == h + rest
    requires Recoverable(filename, user, created, updated, style) && SuffixOnlyAtEnd(style)
    requires forall k :: 0 <= k < |nows| ==> Recoverable(name, login, created, nows[k], style)
    requires nows != []
    requires last == BuildHeader(name, login, Some(created), nows[|nows| - 1], style)
    requires tail == rest[LeadingNewlines(rest)..]
    ensures SaveAll(doc, setting, table, nows).text == last + tail
    decreases |nows|
  {
    var now := nows[0];
    var later := nows[1..];
    var doc1, h1, rest1 := SaveStep(doc, setting, table, style, name, login, filename, user, created,
                                    updated, h, rest, now);
    SaveAllStep(doc, setting, table, nows, doc1, later);
    FirstAndLater(nows, now, later);
    if later != [] {
      assert Recoverable(name, login, created, now, style);
      assert forall k :: 0 <= k < |later| ==> Recoverable(name, login, created, later[k], style) by {
        forall k | 0 <= k < |later|
          ensures Recoverable(name, login, created, later[k], style)
        {
          assert later[k] == nows[k + 1];
        }
      }
      SavesKeepHeader(doc1, setting, table, style, name, login, name, login, created, now,
                      h1, rest1, later, last, tail);
    }
  }

  /** A non-empty series split into its first element and the rest. */
  lemma FirstAndLater<T>(xs: seq<T>, first: T, later: seq<T>)
    requires xs != [] && first == xs[0] && later == xs[1..]
    ensures later == [] ==> first == xs[|xs| - 1]
    ensures later != [] ==> later[|later| - 1] == xs[|xs| - 1]
    ensures forall k :: 0 <= k < |later| ==> later[k] == xs[k + 1]
  {
  }

  /** A series of saves is the first save followed by the rest. */
  lemma SaveAllStep(doc: Document, setting: Option<string>, table: DelimiterTable, nows: seq<string>,
                    doc1: Document, later: seq<string>)
    requires nows != [] && doc1 == Save(doc, setting, table, nows[0]) && later == nows[1..]
    ensures SaveAll(doc, setting, table, nows) == SaveAll(doc1, setting, table, later)
  {
  }

  /** One save of a document that starts with a rendered header: the saved
      document starts with the header rendered now, followed by the text with
      its leading newlines absorbed, which starts with no newline. */
  lemma SaveStep(doc: Document, setting: Option<string>, table: DelimiterTable,
                 style: CommentStyle, name: string, login: string,
                 filename: string, user: string, created: string, updated: string,
                 h: string, rest: string, now: string)
      returns (doc1: Document, h1: string, rest1: string)
    requires style == GetCommentStyle(table, doc.languageId)
    requires name == Basename(doc.fileName) && login == GithubUser(setting)
    requires h == BuildHeader(filename, user, Some(created), updated, style) && doc.text == h + rest
    requires Recoverable(filename, user, created, updated, style) && SuffixOnlyAtEnd(style)
    ensures doc1 == Save(doc, setting, table, now)
    ensures doc1.fileName == doc.fileName && doc1.languageId == doc.languageId
    ensures h1 == BuildHeader(name, login, Some(created), now, style) && doc1.text == h1 + rest1
    ensures rest1 == rest[LeadingNewlines(rest)..] && rest1[LeadingNewlines(rest1)..] == rest1
  {
    SaveKeepsCreated(doc, setting, table, filename, user, created, updated, rest, now);
    doc1 := Save(doc, setting, table, now);
    h1 := BuildHeader(name, login, Some(created), now, style);
    rest1 := rest[LeadingNewlines(rest)..];
    StripsOnce(rest);
  }

  /** A header inserted at some time and then saved keeps that time as its
      creation time. */
  lemma InsertThenSave(doc: Document, setting: Option<string>, table: DelimiterTable,
                       inserted: string, saved: string)
    requires InsertHeaderCommand(Some(doc), setting, table, inserted).Insert?
    requires SaveRecoverable(doc, setting, table, inserted, inserted)
    ensures var h := InsertHeaderCommand(Some(doc), setting, table, inserted).header;
            var doc2 := doc.(text := InsertAtStart(doc.text, h));
            Save(doc2, setting, table, saved).text
            == BuildHeader(Basename(doc.fileName), GithubUser(setting), Some(inserted), saved,
                           GetCommentStyle(table, doc.languageId))
               + doc.text[LeadingNewlines(doc.text)..]
  {
    var h := InsertHeaderCommand(Some(doc), setting, table, inserted).header;
    var doc2 := doc.(text := InsertAtStart(doc.text, h));
    SaveKeepsCreated(doc2, setting, table, Basename(doc.fileName), GithubUser(setting), inserted,
                     inserted, doc.text, saved);
  }
}
