/** Choosing the comment delimiters for a document's language (`getCommentStyle`). */
module Style {

  /** The delimiters put around the header: `line` before and `end` after
      every header line, and `start`, when non-empty, alone on a first line. */
  datatype CommentStyle = CommentStyle(start: string, line: string, end: string)

  /** The delimiter table: a language id mapped to its (line prefix, line suffix). */
  type DelimiterTable = map<string, (string, string)>

  /** The style used for a language the table does not know. */
  const DefaultStyle := CommentStyle("", "# ", " #")

  /** The style for `languageId`: its table entry, else the default; never a
      block opener. */
  function GetCommentStyle(table: DelimiterTable, languageId: string): (s: CommentStyle)
    ensures s.start == ""
    ensures languageId in table ==> s.line == table[languageId].0 && s.end == table[languageId].1
    ensures languageId !in table ==> s.line == "# " && s.end == " #"
  {
    if languageId in table then
      var (prefix, suffix) := table[languageId];
      CommentStyle("", prefix, suffix)
    else
      DefaultStyle
  }
}
