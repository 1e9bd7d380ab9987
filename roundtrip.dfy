/**
  Reading a rendered header back: `extractHeaderRanges` applied to
  `buildHeader(...) + rest` finds the header at the start of the text and,
  when the rendered fields cannot be mistaken for the header's own markup,
  recovers the creation time and the author that were put into it.
 */
module HeaderRoundTrip {

  import opened JsString
  import opened Wrappers
  import opened Style
  import opened Render
  import opened HeaderScan
  import opened HeaderLocate

  // ----- The header as eleven joined lines -----

  /** A header rendered without an opener line is its wrapped lines joined,
      then an empty line; the first and last wrapped lines are the marker. */
  lemma HeaderIsJoin(filename: string, user: string, created: string, now: string, style: CommentStyle)
    requires style.start == ""
    ensures var ws := Wrap(style, TemplateLines(filename, user, created, now));
            BuildHeader(filename, user, Some(created), now, style) == Join(ws, '\n') + "\n\n"
            && |ws| == 11 && ws[0] == Marker(style) && ws[10] == Marker(style)
  {
    var ws := Wrap(style, TemplateLines(filename, user, created, now));
    assert ws[0] == style.line + Border + style.end;
    assert ws[10] == style.line + Border + style.end;
    assert StartLine(style) == "";
    assert "" + Join(ws, '\n') + "\n\n" == Join(ws, '\n') + "\n\n";
  }

  // ----- Finding the two markers -----

  /** The joined lines are the opening marker, the lines between, and the closing marker. */
  lemma MarkersAtEnds(ws: seq<string>, m: string)
    requires |ws| == 11 && ws[0] == m && ws[10] == m
    ensures Join(ws, '\n') == m + "\n" + Join(ws[1..10], '\n') + "\n" + m
  {
    JoinLast(ws, '\n');
    assert ws[..10][1..] == ws[1..10];
  }

  /** After a marker `m` that holds the run `S` at offset `p`, the next copy
      of `m` starts where the text `x` ends, less `p`, when a copy starts there,
      `x` holds no `S` and its last character is not in `S`: any earlier copy
      would put its `S` inside `x` or across its end. */
  lemma NextMarkerAt(t: string, m: string, x: string, b: string, S: string, p: nat)
    requires t == m + (x + b)
    requires p + |S| <= |m| && m[p..p + |S|] == S
    requires Avoids(x, S) && |x| > p && x[|x| - 1] !in S
    requires OccursAt(t, m, |m| + |x| - p)
    ensures SearchAfterOpening(t, m) == |m| + |x| - p
  {
    forall j | |m| <= j < |m| + |x| - p ensures !OccursAt(t, m, j) {
      if OccursAt(t, m, j) {
        OccursWithin(t, m, j, S, p);
        NoneBefore(x, b, S);
        OccursShift(m, x + b, S, j + p - |m|);
        assert false;
      }
    }
    IndexOfIs(t, m, |m|, |m| + |x| - p);
  }

  /** The text between the opening marker and the closing marker's asterisks. */
  lemma BetweenMarkersAvoidsStars(ws: seq<string>, style: CommentStyle)
    requires |ws| == 11
    requires forall k :: 1 <= k < 10 ==> Avoids(ws[k], BorderStars)
    requires Avoids(style.line, BorderStars)
    ensures Avoids("\n" + Join(ws[1..10], '\n') + "\n" + style.line + " ", BorderStars)
  {
    var S := BorderStars;
    var mid := Join(ws[1..10], '\n');
    assert S[0] == '*';
    AvoidsJoin(ws[1..10], '\n', S);
    AvoidsByChar("\n", S, '*');
    AvoidsByChar(" ", S, '*');
    AvoidsConcat("\n", mid, S);
    AvoidsConcat("\n" + mid, "\n", S);
    AvoidsConcat("\n" + mid + "\n", style.line, S);
    AvoidsConcat("\n" + mid + "\n" + style.line, " ", S);
  }

  /** In a text that starts with a marker spelt out as a prefix, a space, the
      asterisk run `S`, a space and a suffix, then the lines `mid`, then the
      marker again, the first marker found after the opening one is the closing
      one, when `mid` and the prefix hold no `S`. */
  lemma ClosingMarkerAt(line: string, S: string, end: string, mid: string, rest: string)
    requires Avoids("\n" + mid + "\n" + line + " ", S) && ' ' !in S
    ensures var m := line + " " + S + " " + end;
            SearchAfterOpening(m + "\n" + mid + "\n" + m + "\n\n" + rest, m) == |m| + 1 + |mid| + 1
  {
    var m := line + " " + S + " " + end;
    var t := m + "\n" + mid + "\n" + m + "\n\n" + rest;
    var x := "\n" + mid + "\n" + line + " ";
    var b := S + " " + end + "\n\n" + rest;
    ClosingRegroup(m, mid, rest, t, line, S, end, x, b);
    ClosingOccurs(m, mid, rest, t);
    MarkerHoldsRun(line, S, end, m);
    NextMarkerAt(t, m, x, b, S, |line| + 1);
  }

  /** The text between the markers, regrouped around the closing run. */
  lemma ClosingRegroup(m: string, mid: string, rest: string, t: string,
                       line: string, S: string, end: string, x: string, b: string)
    requires m == line + " " + S + " " + end && t == m + "\n" + mid + "\n" + m + "\n\n" + rest
    requires x == "\n" + mid + "\n" + line + " " && b == S + " " + end + "\n\n" + rest
    ensures t == m + (x + b)
  {
  }

  /** The closing marker sits after the opening one, `mid` and two newlines. */
  lemma ClosingOccurs(m: string, mid: string, rest: string, t: string)
    requires t == m + "\n" + mid + "\n" + m + "\n\n" + rest
    ensures OccursAt(t, m, |m| + 1 + |mid| + 1)
  {
    assert t == (m + "\n" + mid + "\n") + m + ("\n\n" + rest);
    OccursMiddle(m + "\n" + mid + "\n", m, "\n\n" + rest);
  }

  /** The marker holds its run of asterisks after the line prefix and a space. */
  lemma MarkerHoldsRun(line: string, S: string, end: string, m: string)
    requires m == line + " " + S + " " + end
    ensures |line| + 1 + |S| <= |m| && m[|line| + 1..|line| + 1 + |S|] == S
  {
  }

  /** In the joined lines followed by anything, the first marker found after
      the opening one is the closing one, when the lines in between and the
      line prefix hold no run of the border's asterisks. */
  lemma SecondMarkerAt(ws: seq<string>, style: CommentStyle, rest: string)
    requires |ws| == 11 && ws[0] == Marker(style) && ws[10] == Marker(style)
    requires forall k :: 1 <= k < 10 ==> Avoids(ws[k], BorderStars)
    requires Avoids(style.line, BorderStars)
    ensures var m := Marker(style);
            var t := Join(ws, '\n') + "\n\n" + rest;
            |m| <= |Join(ws, '\n')| - |m| && SearchAfterOpening(t, m) == |Join(ws, '\n')| - |m|
  {
    var mid := Join(ws[1..10], '\n');
    MarkersAtEnds(ws, Marker(style));
    BetweenMarkersAvoidsStars(ws, style);
    assert ' ' !in BorderStars;
    assert Marker(style) == style.line + " " + BorderStars + " " + style.end;
    ClosingMarkerAt(style.line, BorderStars, style.end, mid, rest);
  }

  // ----- Finding the fields -----

  /** The text around a field `x` of line `k`: the lines before it, the line's
      own text before the field, and everything after the field. */
  lemma FieldSplit(ws: seq<string>, k: nat, p: string, x: string, q: string, rest: string)
    requires 0 < k < |ws| - 1 && ws[k] == p + x + q
    ensures var u := Join(ws[..k], '\n') + "\n" + p;
            var w := q + "\n" + Join(ws[k + 1..], '\n') + "\n\n" + rest;
            Join(ws, '\n') + "\n\n" + rest == u + x + w
            && |u| + |x| + |q| + 1 + |ws[|ws| - 1]| <= |Join(ws, '\n')|
  {
    var a, tail := Join(ws[..k], '\n'), ws[k + 1..];
    var b := Join(tail, '\n');
    JoinAround(ws, k, '\n');
    assert Join(ws, '\n') == a + "\n" + (p + x + q) + "\n" + b;
    assert |Join(ws, '\n')| == |a| + 1 + |p| + |x| + |q| + 1 + |b|;
    Regroup(a, p, x, q, b, rest);
    JoinCoversLast(tail, '\n');
    assert tail[|tail| - 1] == ws[|ws| - 1];
  }

  /** The text around a field, regrouped around it. */
  lemma Regroup(a: string, p: string, x: string, q: string, b: string, rest: string)
    ensures a + "\n" + (p + x + q) + "\n" + b + "\n\n" + rest
            == (a + "\n" + p) + x + (q + "\n" + b + "\n\n" + rest)
  {
  }

  /** The text before a field avoids a tag when the lines before it and the
      line's own text before the field do. */
  lemma PrefixAvoids(ws: seq<string>, k: nat, p: string, tag: string)
    requires 0 < k <= |ws|
    requires forall j :: 0 <= j < k ==> Avoids(ws[j], tag)
    requires Avoids(p, tag) && '\n' !in tag && |tag| >= 2
    ensures Avoids(Join(ws[..k], '\n') + "\n" + p, tag)
  {
    AvoidsJoin(ws[..k], '\n', tag);
    AvoidsAround(Join(ws[..k], '\n'), '\n', p, tag);
  }

  /** A prefix of `u + x + w` that reaches past `x`. */
  lemma PrefixPast(u: string, x: string, w: string, e: nat)
    requires |u| + |x| <= e <= |u| + |x| + |w|
    ensures (u + x + w)[0..e] == u + x + w[..e - |u| - |x|]
  {
  }

  // ----- What the template lines hold -----

  /** The template lines up to the `Created:` line end with a space. */
  lemma TemplateLineEnds(filename: string, user: string, created: string, now: string)
    ensures SevenEndInSpace(TemplateLines(filename, user, created, now))
  {
    var ls := TemplateLines(filename, user, created, now);
    ArtEnds();
    NamedLineEnds(filename, user);
    LinesOfTemplate(filename, user, created, now);
    FirstSevenEnd(ls);
  }

  /** The first seven lines each end in a space. */
  predicate SevenEndInSpace(ls: seq<string>)
  {
    |ls| >= 7 && forall k :: 0 <= k < 7 ==> |ls[k]| >= 1 && ls[k][|ls[k]| - 1] == ' '
  }

  /** Seven lines, each ending in a space. */
  lemma FirstSevenEnd(ls: seq<string>)
    requires |ls| >= 7 && forall k :: 0 <= k < 7 ==> |ls[k]| >= 1
    requires ls[0][|ls[0]| - 1] == ' ' && ls[1][|ls[1]| - 1] == ' ' && ls[2][|ls[2]| - 1] == ' '
    requires ls[3][|ls[3]| - 1] == ' ' && ls[4][|ls[4]| - 1] == ' ' && ls[5][|ls[5]| - 1] == ' '
    requires ls[6][|ls[6]| - 1] == ' '
    ensures SevenEndInSpace(ls)
  {
  }

  /** The template lines one by one. */
  lemma LinesOfTemplate(filename: string, user: string, created: string, now: string)
    ensures var ls := TemplateLines(filename, user, created, now);
            && ls[0] == Border && ls[1] == ArtTop && ls[2] == ArtUpper && ls[3] == FileLine(filename)
            && ls[4] == ArtMiddle && ls[5] == ByLine(user) && ls[6] == BlankLine
            && ls[7] == StampLine("Created:", created, user) && ls[8] == StampLine("Updated:", now, user)
            && ls[9] == BlankLine && ls[10] == Border
  {
  }

  /** The border, the blank line and the art lines end in a space. */
  lemma ArtEnds()
    ensures Border[|Border| - 1] == ' ' && BlankLine[|BlankLine| - 1] == ' '
    ensures ArtTop[|ArtTop| - 1] == ' ' && ArtUpper[|ArtUpper| - 1] == ' '
    ensures ArtMiddle[|ArtMiddle| - 1] == ' '
  {
  }

  /** The file and author lines end in the art beside them, which ends in a space. */
  lemma NamedLineEnds(filename: string, user: string)
    ensures FileLine(filename)[|FileLine(filename)| - 1] == ' '
    ensures ByLine(user)[|ByLine(user)| - 1] == ' '
  {
    assert FileLine(filename)[|FileLine(filename)| - 1] == ArtBesideName[|ArtBesideName| - 1];
    assert ByLine(user)[|ByLine(user)| - 1] == ArtBesideUser[|ArtBesideUser| - 1];
  }

  /** A padded field is the field followed by spaces. */
  lemma PadSplit(s: string, n: nat)
    ensures PadEnd(s, n) == s + PadEnd(s, n)[|s|..]
    ensures forall k :: 0 <= k < |PadEnd(s, n)[|s|..]| ==> PadEnd(s, n)[|s|..][k] == ' '
  {
    var r := PadEnd(s, n);
    assert r == r[..|s|] + r[|s|..];
  }

  /** The author line: `By: <user>` between the indent and whitespace. */
  lemma ByLineField(user: string)
    ensures var q := PadEnd(user, 42)[|user|..] + ArtBesideUser;
            ByLine(user) == "   " + ("By: " + user) + q && q != [] && q[0] == ' '
  {
    PadSplit(user, 42);
    var q := PadEnd(user, 42)[|user|..] + ArtBesideUser;
    assert ArtBesideUser[0] == ' ';
  }

  /** The creation line: `Created: <time> by <user>` after the indent. */
  lemma CreatedLineField(created: string, user: string)
    ensures StampLine("Created:", created, user)
            == "   " + ("Created: " + created + " by " + user) + PadEnd(user, 44)[|user|..]
  {
    PadSplit(user, 44);
  }

  /** A field padded between a text ending and a text starting with a space
      avoids a pattern without spaces when the three pieces do. */
  lemma PaddedAvoids(pre: string, s: string, n: nat, post: string, p: string)
    requires Avoids(pre, p) && Avoids(s, p) && Avoids(post, p)
    requires |p| >= 2 && ' ' !in p
    requires pre != [] && pre[|pre| - 1] == ' '
    requires post == [] || post[0] == ' '
    ensures Avoids(pre + PadEnd(s, n) + post, p)
  {
    if |s| < n {
      var sp := Spaces(n - |s|);
      AvoidsByChar(sp, p, p[0]);
      AvoidsConcat(s, sp, p);
    }
    AvoidsConcat(pre, PadEnd(s, n), p);
    if post == [] {
      assert pre + PadEnd(s, n) + post == pre + PadEnd(s, n);
    } else {
      AvoidsConcat(pre + PadEnd(s, n), post, p);
    }
  }

  /** A template line wrapped in delimiters that avoid a pattern avoids it,
      when the line starts and ends outside the pattern. */
  lemma WrappedAvoids(style: CommentStyle, l: string, p: string)
    requires Avoids(style.line, p) && Avoids(l, p) && Avoids(style.end, p)
    requires |l| >= 1 && l[0] !in p && l[|l| - 1] !in p
    ensures Avoids(style.line + l + style.end, p)
  {
    AvoidsConcat(style.line, l, p);
    AvoidsConcat(style.line + l, style.end, p);
  }

  /** The fixed template text has no `B` and no `C`. */
  lemma FixedTextUntagged()
    ensures 'B' !in Border && 'C' !in Border
    ensures 'B' !in ArtTop && 'C' !in ArtTop
    ensures 'B' !in ArtUpper && 'C' !in ArtUpper
    ensures 'B' !in ArtMiddle && 'C' !in ArtMiddle
    ensures 'B' !in BlankLine && 'C' !in BlankLine
    ensures 'B' !in ArtBesideName && 'C' !in ArtBesideName
    ensures 'C' !in ArtBesideUser
  {
    BlankTextUntagged();
    ArtUntagged();
  }

  /** The border and the blank line are asterisks and spaces. */
  lemma BlankTextUntagged()
    ensures 'B' !in Border && 'C' !in Border
    ensures 'B' !in BlankLine && 'C' !in BlankLine
  {
    assert forall k :: 0 <= k < |BorderStars| ==> BorderStars[k] == '*';
  }

  /** The ASCII art has no `B` and no `C`. */
  lemma ArtUntagged()
    ensures 'B' !in ArtTop && 'C' !in ArtTop
    ensures 'B' !in ArtUpper && 'C' !in ArtUpper
    ensures 'B' !in ArtMiddle && 'C' !in ArtMiddle
    ensures 'B' !in ArtBesideName && 'C' !in ArtBesideName
    ensures 'C' !in ArtBesideUser
  {
  }

  /** The template lines before the author line avoid `By:`, and those before
      the creation line avoid `Created:`, when the filename and the author do. */
  lemma TemplateAvoidsTags(filename: string, user: string, created: string, now: string)
    requires Avoids(filename, "By:") && Avoids(filename, "Created:") && Avoids(user, "Created:")
    ensures var ls := TemplateLines(filename, user, created, now);
            (forall k :: 0 <= k < 5 ==> Avoids(ls[k], "By:"))
            && (forall k :: 0 <= k < 7 ==> Avoids(ls[k], "Created:"))
  {
    var ls := TemplateLines(filename, user, created, now);
    FixedTextUntagged();
    assert ls[0] == Border && ls[1] == ArtTop && ls[2] == ArtUpper && ls[4] == ArtMiddle && ls[6] == BlankLine;
    forall k | 0 <= k < 7 && k != 3 && k != 5
      ensures Avoids(ls[k], "By:") && Avoids(ls[k], "Created:")
    {
      AvoidsByChar(ls[k], "By:", 'B');
      AvoidsByChar(ls[k], "Created:", 'C');
    }
    FileLineAvoidsTags(filename);
    AvoidsByChar("   By: ", "Created:", 'C');
    AvoidsByChar(ArtBesideUser, "Created:", 'C');
    PaddedAvoids("   By: ", user, 42, ArtBesideUser, "Created:");
  }

  lemma FileLineAvoidsTags(filename: string)
    requires Avoids(filename, "By:") && Avoids(filename, "Created:")
    ensures Avoids(FileLine(filename), "By:") && Avoids(FileLine(filename), "Created:")
  {
    FixedTextUntagged();
    AvoidsByChar("   ", "By:", 'B');
    AvoidsByChar("   ", "Created:", 'C');
    AvoidsByChar(ArtBesideName, "By:", 'B');
    AvoidsByChar(ArtBesideName, "Created:", 'C');
    PaddedAvoids("   ", filename, 50, ArtBesideName, "By:");
    PaddedAvoids("   ", filename, 50, ArtBesideName, "Created:");
  }

  /** The template lines between the borders hold no run of the border's
      asterisks and do not end in one, when the filename holds no such run
      and the other fields hold no asterisk. */
  lemma TemplateAvoidsStars(filename: string, user: string, created: string, now: string)
    requires Avoids(filename, BorderStars) && '*' !in user && '*' !in created && '*' !in now
    ensures var ls := TemplateLines(filename, user, created, now);
            forall k :: 1 <= k < 10 ==> Avoids(ls[k], BorderStars) && ls[k][|ls[k]| - 1] != '*'
  {
    var ls := TemplateLines(filename, user, created, now);
    StarlessLines(filename, user, created, now);
    StarlessAvoid(ls);
    FileLineAvoidsStars(filename);
    assert ls[3] == FileLine(filename);
  }

  /** Lines without an asterisk hold no run of the border's asterisks and do
      not end in one. */
  lemma StarlessAvoid(ls: seq<string>)
    requires |ls| == 11 && forall k :: 0 <= k < 11 ==> |ls[k]| >= 2
    requires forall k :: 1 <= k < 10 && k != 3 ==> '*' !in ls[k]
    ensures forall k :: 1 <= k < 10 && k != 3 ==> Avoids(ls[k], BorderStars) && ls[k][|ls[k]| - 1] != '*'
  {
    assert BorderStars[0] == '*';
    forall k | 1 <= k < 10 && k != 3
      ensures Avoids(ls[k], BorderStars) && ls[k][|ls[k]| - 1] != '*'
    {
      AvoidsByChar(ls[k], BorderStars, '*');
    }
  }

  /** The file line holds no run of the border's asterisks when the filename
      holds none, and it ends in a space. */
  lemma FileLineAvoidsStars(filename: string)
    requires Avoids(filename, BorderStars)
    ensures Avoids(FileLine(filename), BorderStars)
    ensures FileLine(filename)[|FileLine(filename)| - 1] == ' '
  {
    var S := BorderStars;
    assert S[0] == '*';
    AvoidsByChar("   ", S, '*');
    AvoidsByChar(ArtBesideName, S, '*');
    PaddedAvoids("   ", filename, 50, ArtBesideName, S);
    assert FileLine(filename)[|FileLine(filename)| - 1] == ArtBesideName[|ArtBesideName| - 1];
  }

  /** No template line but the borders and the file line holds an asterisk
      when the author and the two times hold none. */
  lemma StarlessLines(filename: string, user: string, created: string, now: string)
    requires '*' !in user && '*' !in created && '*' !in now
    ensures var ls := TemplateLines(filename, user, created, now);
            forall k :: 1 <= k < 10 && k != 3 ==> '*' !in ls[k]
  {
    ArtStarless();
    FieldLinesStarless(user, created, now);
  }

  /** The fixed art lines and the blank line hold no asterisk. */
  lemma ArtStarless()
    ensures '*' !in ArtTop && '*' !in ArtUpper && '*' !in ArtMiddle && '*' !in BlankLine
  {
    assert '*' !in ArtTop && '*' !in ArtUpper;
    assert '*' !in ArtMiddle;
  }

  /** The author and timestamp lines hold no asterisk when their fields hold none. */
  lemma FieldLinesStarless(user: string, created: string, now: string)
    requires '*' !in user && '*' !in created && '*' !in now
    ensures '*' !in ByLine(user)
    ensures '*' !in StampLine("Created:", created, user) && '*' !in StampLine("Updated:", now, user)
  {
    PadEndWithout(user, 42, '*');
    PadEndWithout(user, 44, '*');
  }

  /** Padding adds only spaces. */
  lemma PadEndWithout(s: string, n: nat, c: char)
    requires c != ' ' && c !in s
    ensures c !in PadEnd(s, n)
  {
    if |s| < n {
      assert PadEnd(s, n) == s + Spaces(n - |s|);
    }
  }

  // ----- The round trip -----

  /** Text that holds neither a run of the border's asterisks nor either tag. */
  predicate Clear(s: string)
  {
    Avoids(s, BorderStars) && Avoids(s, "By:") && Avoids(s, "Created:")
  }

  /** What the round trip needs of the text put into a header: an author that
      is one whitespace-free word without asterisks and without `Created:`, a
      creation time the `Created:` pattern gives back whole, a current time
      without asterisks, and a filename and delimiters that are clear. */
  predicate Recoverable(filename: string, user: string, created: string, now: string, style: CommentStyle)
  {
    && user != [] && (forall k :: 0 <= k < |user| ==> !IsSpace(user[k]))
    && '*' !in user && Avoids(user, "Created:")
    && StampField(created) && '*' !in now
    && Clear(filename) && Clear(style.line) && Clear(style.end)
  }

  /** The text before the author's `By:` is clear of that tag. */
  lemma AuthorPrefixClear(filename: string, user: string, created: string, now: string,
                          style: CommentStyle)
    requires Recoverable(filename, user, created, now, style)
    ensures var ws := Wrap(style, TemplateLines(filename, user, created, now));
            Avoids(Join(ws[..5], '\n') + "\n" + (style.line + "   "), "By:")
  {
    var ls := TemplateLines(filename, user, created, now);
    var ws := Wrap(style, ls);
    TemplateAvoidsTags(filename, user, created, now);
    TemplateLineEnds(filename, user, created, now);
    forall j | 0 <= j < 5 ensures Avoids(ws[j], "By:") {
      WrappedAvoids(style, ls[j], "By:");
    }
    AvoidsByChar("   ", "By:", 'B');
    AvoidsConcat(style.line, "   ", "By:");
    PrefixAvoids(ws, 5, style.line + "   ", "By:");
  }

  /** The text before the `Created:` line's tag is clear of that tag. */
  lemma CreatedPrefixClear(filename: string, user: string, created: string, now: string,
                           style: CommentStyle)
    requires Recoverable(filename, user, created, now, style)
    ensures var ws := Wrap(style, TemplateLines(filename, user, created, now));
            Avoids(Join(ws[..7], '\n') + "\n" + (style.line + "   "), "Created:")
  {
    var ls := TemplateLines(filename, user, created, now);
    var ws := Wrap(style, ls);
    TemplateAvoidsTags(filename, user, created, now);
    TemplateLineEnds(filename, user, created, now);
    forall j | 0 <= j < 7 ensures Avoids(ws[j], "Created:") {
      WrappedAvoids(style, ls[j], "Created:");
    }
    AvoidsByChar("   ", "Created:", 'C');
    AvoidsConcat(style.line, "   ", "Created:");
    PrefixAvoids(ws, 7, style.line + "   ", "Created:");
  }

  /** The wrapped author line: `By: <user>` with whitespace after it. */
  lemma WrappedByLine(filename: string, user: string, created: string, now: string,
                      style: CommentStyle)
    ensures var ws := Wrap(style, TemplateLines(filename, user, created, now));
            var q := PadEnd(user, 42)[|user|..] + ArtBesideUser + style.end;
            ws[5] == (style.line + "   ") + ("By: " + user) + q && q != [] && q[0] == ' '
  {
    ByLineField(user);
  }

  /** The wrapped creation line: `Created: <time> by <user>`. */
  lemma WrappedCreatedLine(filename: string, user: string, created: string, now: string,
                           style: CommentStyle)
    ensures var ws := Wrap(style, TemplateLines(filename, user, created, now));
            var q := PadEnd(user, 44)[|user|..] + style.end;
            ws[7] == (style.line + "   ") + ("Created: " + created + " by " + user) + q
  {
    CreatedLineField(created, user);
  }

  /** The author is found in a prefix of `u + By: <user> + w` that reaches past the author. */
  lemma AuthorInPrefix(u: string, user: string, w: string, e: nat)
    requires Avoids(u, "By:") && u != [] && u[|u| - 1] == ' '
    requires user != [] && forall k :: 0 <= k < |user| ==> !IsSpace(user[k])
    requires w != [] && w[0] == ' '
    requires |u| + 4 + |user| < e <= |u| + 4 + |user| + |w|
    ensures MatchGithubUser((u + ("By: " + user) + w)[0..e]) == Some(user)
  {
    var x := "By: " + user;
    PrefixPast(u, x, w, e);
    var v := w[..e - |u| - |x|];
    FindsAuthor(u, user, v);
    assert u + x + v == u + "By: " + user + v;
  }

  /** The creation time is found in a prefix of `u + Created: <time> by <user> + w`
      that reaches past the author's first character. */
  lemma CreatedInPrefix(u: string, created: string, user: string, w: string, e: nat)
    requires Avoids(u, "Created:") && u != [] && u[|u| - 1] == ' '
    requires StampField(created) && user != [] && !IsSpace(user[0])
    requires |u| + |"Created: " + created + " by " + user| <= e
    requires e <= |u| + |"Created: " + created + " by " + user| + |w|
    ensures MatchCreated((u + ("Created: " + created + " by " + user) + w)[0..e]) == Some(created)
  {
    var x := "Created: " + created + " by " + user;
    PrefixPast(u, x, w, e);
    var v := w[..e - |u| - |x|];
    FindsCreated(u, created, user, v);
    FieldRegroup(u, "Created: ", created, " by ", user, v);
  }

  /** A field of four pieces, between two strings, regrouped. */
  lemma FieldRegroup(u: string, a: string, b: string, c: string, d: string, v: string)
    ensures u + (a + b + c + d) + v == u + a + b + c + d + v
  {
  }

  /** Every prefix of the text that reaches past the start of the closing
      marker yields the author. */
  lemma AuthorRecovered(filename: string, user: string, created: string, now: string,
                        style: CommentStyle, rest: string, e: nat)
    requires Recoverable(filename, user, created, now, style)
    requires var ws := Wrap(style, TemplateLines(filename, user, created, now));
             |Join(ws, '\n')| - |Marker(style)| < e <= |Join(ws, '\n')| + 2 + |rest|
    ensures var ws := Wrap(style, TemplateLines(filename, user, created, now));
            MatchGithubUser((Join(ws, '\n') + "\n\n" + rest)[0..e]) == Some(user)
  {
    var ws := Wrap(style, TemplateLines(filename, user, created, now));
    WrappedByLine(filename, user, created, now, style);
    var q := PadEnd(user, 42)[|user|..] + ArtBesideUser + style.end;
    var p := style.line + "   ";
    FieldSplit(ws, 5, p, "By: " + user, q, rest);
    var u := Join(ws[..5], '\n') + "\n" + p;
    var w := q + "\n" + Join(ws[6..], '\n') + "\n\n" + rest;
    AuthorPrefixClear(filename, user, created, now, style);
    AuthorInPrefix(u, user, w, e);
  }

  /** Every prefix of the text that reaches past the start of the closing
      marker yields the creation time. */
  lemma CreatedRecovered(filename: string, user: string, created: string, now: string,
                         style: CommentStyle, rest: string, e: nat)
    requires Recoverable(filename, user, created, now, style)
    requires var ws := Wrap(style, TemplateLines(filename, user, created, now));
             |Join(ws, '\n')| - |Marker(style)| < e <= |Join(ws, '\n')| + 2 + |rest|
    ensures var ws := Wrap(style, TemplateLines(filename, user, created, now));
            MatchCreated((Join(ws, '\n') + "\n\n" + rest)[0..e]) == Some(created)
  {
    var ws := Wrap(style, TemplateLines(filename, user, created, now));
    WrappedCreatedLine(filename, user, created, now, style);
    var q := PadEnd(user, 44)[|user|..] + style.end;
    var p := style.line + "   ";
    FieldSplit(ws, 7, p, "Created: " + created + " by " + user, q, rest);
    var u := Join(ws[..7], '\n') + "\n" + p;
    var w := q + "\n" + Join(ws[8..], '\n') + "\n\n" + rest;
    CreatedPrefixClear(filename, user, created, now, style);
    CreatedInPrefix(u, created, user, w, e);
  }

  /** A rendered header with anything after it is found again, whatever the
      fields and the style: the insert command never adds a second header. */
  lemma HeaderFoundAgain(filename: string, user: string, created: Option<string>, now: string,
                         style: CommentStyle, rest: string)
    ensures Locate(BuildHeader(filename, user, created, now, style) + rest, style).Some?
  {
    var ws := HeaderShape(filename, user, created, now, style);
    var t := BuildHeader(filename, user, created, now, style) + rest;
    MarkersFramed(StartLine(style), ws, Marker(style), rest);
    LocateNoneIff(t, style);
  }

  /** The rendered header is the opener line, the eleven wrapped lines joined,
      the first and last of them the marker, and an empty line. */
  lemma HeaderShape(filename: string, user: string, created: Option<string>, now: string,
                    style: CommentStyle) returns (ws: seq<string>)
    ensures BuildHeader(filename, user, created, now, style) == StartLine(style) + Join(ws, '\n') + "\n\n"
    ensures |ws| == 11 && ws[0] == Marker(style) && ws[10] == Marker(style)
  {
    var createdLine := if created.Some? then created.value else now;
    ws := Wrap(style, TemplateLines(filename, user, createdLine, now));
    assert ws[0] == Marker(style) && ws[10] == Marker(style);
  }

  /** Eleven joined lines framed by the marker hold it twice, apart. */
  lemma MarkersFramed(sp: string, ws: seq<string>, m: string, rest: string)
    requires |ws| == 11 && ws[0] == m && ws[10] == m
    ensures HasTwoMarkers(sp + Join(ws, '\n') + "\n\n" + rest, m)
  {
    var j, mid := Join(ws, '\n'), Join(ws[1..10], '\n');
    MarkersAtEnds(ws, m);
    FramedTwice(sp, j, m, mid, rest);
  }

  /** Lines between two copies of the marker, with anything around them. */
  lemma FramedTwice(sp: string, j: string, m: string, mid: string, rest: string)
    requires j == m + "\n" + mid + "\n" + m
    ensures HasTwoMarkers(sp + j + "\n\n" + rest, m)
  {
    var t := sp + j + "\n\n" + rest;
    var after := "\n" + mid + "\n" + m + "\n\n" + rest;
    assert t == sp + m + after;
    var before := sp + m + "\n" + mid + "\n";
    assert t == before + m + ("\n\n" + rest);
    OccursMiddle(sp, m, after);
    OccursMiddle(before, m, "\n\n" + rest);
    TwoMarkers(t, m, |sp|, |before|);
  }

  /** The asterisk runs in the wrapped lines between the borders. */
  lemma InnerLinesAvoidStars(filename: string, user: string, created: string, now: string,
                             style: CommentStyle)
    requires Recoverable(filename, user, created, now, style)
    ensures var ws := Wrap(style, TemplateLines(filename, user, created, now));
            forall k :: 1 <= k < 10 ==> Avoids(ws[k], BorderStars)
  {
    var ls := TemplateLines(filename, user, created, now);
    assert '*' !in created;
    TemplateAvoidsStars(filename, user, created, now);
    WrapAvoidsStars(style, ls);
  }

  /** Wrapping lines that hold no asterisk run, begin with a space and do not
      end in an asterisk keeps them clear of asterisk runs. */
  lemma WrapAvoidsStars(style: CommentStyle, ls: seq<string>)
    requires Avoids(style.line, BorderStars) && Avoids(style.end, BorderStars)
    requires |ls| == 11 && forall k :: 0 <= k < 11 ==> |ls[k]| >= 2 && ls[k][0] == ' '
    requires forall k :: 1 <= k < 10 ==> Avoids(ls[k], BorderStars) && ls[k][|ls[k]| - 1] != '*'
    ensures var ws := Wrap(style, ls);
            forall k :: 1 <= k < 10 ==> Avoids(ws[k], BorderStars)
  {
    var ws := Wrap(style, ls);
    StarsOnly();
    forall k | 1 <= k < 10 ensures Avoids(ws[k], BorderStars) {
      WrappedAvoids(style, ls[k], BorderStars);
    }
  }

  /** The border's run holds asterisks only. */
  lemma StarsOnly()
    ensures forall c :: c in BorderStars ==> c == '*'
  {
  }

  /** Eleven joined lines framed by the marker, with no asterisk run between
      the frames, are located between the two frames. */
  lemma LocatedBetweenFrames(ws: seq<string>, style: CommentStyle, rest: string)
    requires |ws| == 11 && ws[0] == Marker(style) && ws[10] == Marker(style)
    requires forall k :: 1 <= k < 10 ==> Avoids(ws[k], BorderStars)
    requires Avoids(style.line, BorderStars)
    ensures var t := Join(ws, '\n') + "\n\n" + rest;
            var p2 := |Join(ws, '\n')| - |Marker(style)|;
            0 <= p2 && OccursAt(t, Marker(style), 0) && SearchAfterOpening(t, Marker(style)) == p2
  {
    var m := Marker(style);
    var t := Join(ws, '\n') + "\n\n" + rest;
    MarkersAtEnds(ws, m);
    assert OccursAt(t, m, 0) by {
      OccursMiddle([], m, t[|m|..]);
      assert t == [] + m + t[|m|..];
    }
    SecondMarkerAt(ws, style, rest);
  }

  /** The same, as the marker search reports it. */
  lemma MarkersBetweenFrames(ws: seq<string>, style: CommentStyle, rest: string)
    requires |ws| == 11 && ws[0] == Marker(style) && ws[10] == Marker(style)
    requires forall k :: 1 <= k < 10 ==> Avoids(ws[k], BorderStars)
    requires Avoids(style.line, BorderStars)
    ensures var t := Join(ws, '\n') + "\n\n" + rest;
            var p2 := |Join(ws, '\n')| - |Marker(style)|;
            0 <= p2 && OccursAt(t, Marker(style), p2) && Markers(t, Marker(style)) == Some((0, p2))
  {
    LocatedBetweenFrames(ws, style, rest);
    MarkersFromStart(Join(ws, '\n') + "\n\n" + rest, Marker(style), |Join(ws, '\n')| - |Marker(style)|);
  }

  /** A header rendered in a style without an opener line, followed by
      anything, has its two markers found at its own two borders; it ends with
      an empty line. */
  lemma LocatedAtItsBorders(filename: string, user: string, created: string, now: string,
                            style: CommentStyle, rest: string, h: string)
    requires style.start == "" && Recoverable(filename, user, created, now, style)
    requires h == BuildHeader(filename, user, Some(created), now, style)
    ensures |h| >= 2 + |Marker(style)| && h[|h| - 2..] == "\n\n"
    ensures Markers(h + rest, Marker(style)) == Some((0, |h| - 2 - |Marker(style)|))
  {
    var ws := Wrap(style, TemplateLines(filename, user, created, now));
    var j := Join(ws, '\n');
    assert 0 <= |j| - |Marker(style)| && Markers(j + "\n\n" + rest, Marker(style)) == Some((0, |j| - |Marker(style)|)) by {
      HeaderIsJoin(filename, user, created, now, style);
      InnerLinesAvoidStars(filename, user, created, now, style);
      MarkersBetweenFrames(ws, style, rest);
    }
    assert h == j + "\n\n" by {
      HeaderIsJoin(filename, user, created, now, style);
    }
    MarkersAfterRewrite(h, j, rest, Marker(style));
  }

  /** The marker facts about the joined lines carry over to a header equal to them. */
  lemma MarkersAfterRewrite(h: string, j: string, rest: string, m: string)
    requires h == j + "\n\n"
    requires 0 <= |j| - |m| && Markers(j + "\n\n" + rest, m) == Some((0, |j| - |m|))
    ensures |h| >= 2 + |m| && h[|h| - 2..] == "\n\n"
    ensures Markers(h + rest, m) == Some((0, |h| - 2 - |m|))
  {
  }

  /** A header rendered in a style without an opener line, followed by
      anything, is located at the start of the text; its span reaches past the
      closing marker's start, and it gives back the creation time and the
      author that were rendered into it. */
  lemma RoundTrip(filename: string, user: string, created: string, now: string,
                  style: CommentStyle, rest: string)
    requires style.start == "" && Recoverable(filename, user, created, now, style)
    ensures var h := BuildHeader(filename, user, Some(created), now, style);
            var r := Locate(h + rest, style);
            r.Some? && r.value.start == 0 && |h| - 2 - |Marker(style)| < r.value.end
            && r.value.created == Some(created) && r.value.githubUser == Some(user)
  {
    var h := BuildHeader(filename, user, Some(created), now, style);
    LocatedAtItsBorders(filename, user, created, now, style, rest, h);
    FoundAtStart(h + rest, style, |h| - 2 - |Marker(style)|);
    HeaderIsJoin(filename, user, created, now, style);
    var e := Locate(h + rest, style).value.end;
    AuthorRecovered(filename, user, created, now, style, rest, e);
    CreatedRecovered(filename, user, created, now, style, rest, e);
  }

  // ----- Where the span ends -----

  /** The line suffix occurs in the marker only as the marker's own ending. */
  predicate SuffixOnlyAtEnd(style: CommentStyle)
  {
    style.end == "" || IndexOf(Marker(style), style.end, 0) == |Marker(style)| - |style.end|
  }


  /** Inside a copy of the marker, occurrences are the marker's own. */
  lemma OccursInMarker(t: string, m: string, p2: nat, e: string, i: nat)
    requires OccursAt(t, m, p2) && i + |e| <= |m|
    ensures OccursAt(t, e, p2 + i) <==> OccursAt(m, e, i)
  {
    var w := t[p2..p2 + |m|];
    var a := t[p2 + i..p2 + i + |e|];
    var b := m[i..i + |e|];
    forall j | 0 <= j < |e| ensures a[j] == b[j] {
      assert a[j] == t[p2 + i + j];
      assert b[j] == m[i + j] == w[i + j];
    }
    assert a == b;
  }

  /** The suffix search from the closing marker stops at the marker's end
      when the suffix occurs nowhere earlier in the marker. */
  lemma SuffixFoundAtClose(t: string, style: CommentStyle, p2: nat)
    requires OccursAt(t, Marker(style), p2) && SuffixOnlyAtEnd(style)
    ensures EndSearch(t, style, Marker(style), p2) == p2 + |Marker(style)|
  {
    var m := Marker(style);
    if style.end != "" {
      SuffixEndsMarker(t, style, m, p2);
      FirstInCopy(t, m, style.end, p2);
    }
  }

  /** In a copy of `m` at `p2`, a pattern that `m` holds first at its end is
      found first at the copy's end. */
  lemma FirstInCopy(t: string, m: string, e: string, p2: nat)
    requires OccursAt(t, m, p2) && |e| <= |m| && IndexOf(m, e, 0) == |m| - |e|
    requires OccursAt(t, e, p2 + |m| - |e|)
    ensures IndexOf(t, e, p2) == p2 + |m| - |e|
  {
    var last := |m| - |e|;
    forall j | p2 <= j < p2 + last ensures !OccursAt(t, e, j) {
      OccursInMarker(t, m, p2, e, j - p2);
    }
    IndexOfIs(t, e, p2, p2 + last);
  }

  /** The newlines after a header are absorbed up to the first other character. */
  lemma AbsorbsNewlines(h: string, rest: string)
    requires |h| >= 2 && h[|h| - 2..] == "\n\n"
    ensures RunEnd(h + rest, |h| - 2, IsNewline) == |h| + LeadingNewlines(rest)
  {
    var t := h + rest;
    assert t[|h| - 2] == '\n' && t[|h| - 1] == '\n';
    RunEndShift(h, rest, 0, IsNewline);
  }

  /** With a suffix that occurs in the marker only at its end, the span of a
      rendered header followed by anything is exactly the header and the
      newlines after it, and it holds the creation time and the author. */
  lemma SpanCoversHeader(filename: string, user: string, created: string, now: string,
                         style: CommentStyle, rest: string, h: string, t: string)
      returns (end: nat)
    requires style.start == "" && Recoverable(filename, user, created, now, style)
    requires SuffixOnlyAtEnd(style)
    requires h == BuildHeader(filename, user, Some(created), now, style)
    requires t == h + rest
    ensures end == |h| + LeadingNewlines(rest)
    ensures Locate(t, style) == Some(HeaderSpan(0, end, Some(created), Some(user)))
  {
    var n, second := BordersOfText(filename, user, created, now, style, rest, h, t);
    end := FieldsOfText(filename, user, created, now, style, rest, h, t);
    SpanWithFields(t, n, style, second, end, created, user);
  }

  /** The marker facts of a rendered header, stated on the text it starts. */
  lemma BordersOfText(filename: string, user: string, created: string, now: string,
                      style: CommentStyle, rest: string, h: string, t: string)
      returns (n: nat, second: nat)
    requires style.start == "" && Recoverable(filename, user, created, now, style)
    requires h == BuildHeader(filename, user, Some(created), now, style)
    requires t == h + rest
    ensures n == |h| && second == n - 2 - |Marker(style)|
    ensures 2 + |Marker(style)| <= n <= |t| && t[n - 2] == '\n' && t[n - 1] == '\n'
    ensures Markers(t, Marker(style)) == Some((0, second))
  {
    n, second := |h|, |h| - 2 - |Marker(style)|;
    LocatedAtItsBorders(filename, user, created, now, style, rest, h);
    BlockThenRest(h, rest);
  }

  /** The fields of a rendered header, stated on the text it starts. */
  lemma FieldsOfText(filename: string, user: string, created: string, now: string,
                     style: CommentStyle, rest: string, h: string, t: string)
      returns (end: nat)
    requires style.start == "" && Recoverable(filename, user, created, now, style)
    requires h == BuildHeader(filename, user, Some(created), now, style)
    requires t == h + rest
    ensures end == |h| + LeadingNewlines(rest)
    ensures |h| <= |t| && end == |h| + LeadingNewlines(t[|h|..])
    ensures end <= |t| && MatchCreated(t[0..end]) == Some(created) && MatchGithubUser(t[0..end]) == Some(user)
  {
    end := |h| + LeadingNewlines(rest);
    FieldsOfHeader(filename, user, created, now, style, rest, h, end);
    FieldsOnText(h, rest, t, end, created, user);
  }

  /** Fields read from `h + rest` are read from the text `t` equal to it. */
  lemma FieldsOnText(h: string, rest: string, t: string, end: nat, created: string, user: string)
    requires t == h + rest && end == |h| + LeadingNewlines(rest) && end <= |h + rest|
    requires MatchCreated((h + rest)[0..end]) == Some(created)
    requires MatchGithubUser((h + rest)[0..end]) == Some(user)
    ensures |h| <= |t| && end == |h| + LeadingNewlines(t[|h|..])
    ensures end <= |t| && MatchCreated(t[0..end]) == Some(created) && MatchGithubUser(t[0..end]) == Some(user)
  {
    assert t[|h|..] == rest;
  }

  /** A block ending in an empty line, then the rest of the text. */
  lemma BlockThenRest(h: string, rest: string)
    requires |h| >= 2 && h[|h| - 2..] == "\n\n"
    ensures (h + rest)[|h| - 2] == '\n' && (h + rest)[|h| - 1] == '\n'
  {
    assert (h + rest)[|h| - 2] == h[|h| - 2..][0] && (h + rest)[|h| - 1] == h[|h| - 2..][1];
  }

  /** A block whose last line is the second marker, followed by an empty line
      and the rest of the text, from which the scans read the two fields: the
      span is the block and the newlines after it, with those fields. */
  lemma SpanWithFields(t: string, n: nat, style: CommentStyle, second: nat, end: nat,
                        created: string, user: string)
    requires SuffixOnlyAtEnd(style)
    requires 2 + |Marker(style)| <= n <= |t| && t[n - 2] == '\n' && t[n - 1] == '\n'
    requires second == n - 2 - |Marker(style)| && end == n + LeadingNewlines(t[n..])
    requires Markers(t, Marker(style)) == Some((0, second))
    requires end <= |t| && MatchCreated(t[0..end]) == Some(created) && MatchGithubUser(t[0..end]) == Some(user)
    ensures Locate(t, style) == Some(HeaderSpan(0, end, Some(created), Some(user)))
  {
    EndAfterFrame(t, n, style, second, end);
    LocateWithFields(t, style, second, end, created, user);
  }

  /** The suffix search from a closing marker that ends two characters before
      `n` stops at the marker's end, and the newlines from there on are absorbed. */
  lemma EndAfterFrame(t: string, n: nat, style: CommentStyle, second: nat, end: nat)
    requires SuffixOnlyAtEnd(style) && 2 + |Marker(style)| <= n <= |t| && t[n - 2] == '\n' && t[n - 1] == '\n'
    requires second == n - 2 - |Marker(style)| && end == n + LeadingNewlines(t[n..])
    requires OccursAt(t, Marker(style), second)
    ensures SpanEnd(t, style, Marker(style), second) == end
  {
    SuffixFoundAtClose(t, style, second);
    var e := EndSearch(t, style, Marker(style), second);
    AbsorbsAt(t, n, e);
  }

  /** Two newlines ending at `n` are absorbed, with every newline after them. */
  lemma AbsorbsAt(t: string, n: nat, e: nat)
    requires 2 <= n <= |t| && t[n - 2] == '\n' && t[n - 1] == '\n' && e == n - 2
    ensures RunEnd(t, e, IsNewline) == n + LeadingNewlines(t[n..])
  {
    assert t[..n] + t[n..] == t;
    assert t[..n][n - 2..] == "\n\n";
    AbsorbsNewlines(t[..n], t[n..]);
  }

  /** The scans of a rendered header and the newlines after it give back the
      creation time and the author. */
  lemma FieldsOfHeader(filename: string, user: string, created: string, now: string,
                       style: CommentStyle, rest: string, h: string, e: nat)
    requires style.start == "" && Recoverable(filename, user, created, now, style)
    requires h == BuildHeader(filename, user, Some(created), now, style)
    requires e == |h| + LeadingNewlines(rest)
    ensures e <= |h + rest|
    ensures MatchCreated((h + rest)[0..e]) == Some(created)
    ensures MatchGithubUser((h + rest)[0..e]) == Some(user)
  {
    var ws := Wrap(style, TemplateLines(filename, user, created, now));
    var j := Join(ws, '\n');
    assert h == j + "\n\n" by {
      HeaderIsJoin(filename, user, created, now, style);
    }
    assert MatchCreated((j + "\n\n" + rest)[0..e]) == Some(created) by {
      CreatedRecovered(filename, user, created, now, style, rest, e);
    }
    assert MatchGithubUser((j + "\n\n" + rest)[0..e]) == Some(user) by {
      AuthorRecovered(filename, user, created, now, style, rest, e);
    }
    FieldsAfterRewrite(h, j, rest, e, created, user);
  }

  /** The fields read from the joined lines are read from a header equal to them. */
  lemma FieldsAfterRewrite(h: string, j: string, rest: string, e: nat, created: string, user: string)
    requires h == j + "\n\n" && e <= |h + rest|
    requires MatchCreated((j + "\n\n" + rest)[0..e]) == Some(created)
    requires MatchGithubUser((j + "\n\n" + rest)[0..e]) == Some(user)
    ensures MatchCreated((h + rest)[0..e]) == Some(created) && MatchGithubUser((h + rest)[0..e]) == Some(user)
  {
  }
}
