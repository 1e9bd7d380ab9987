/**
  The two regular expressions that read the fields back out of a located
  header (src/extension.ts:99-102):
    /Created:\s*([0-9\-:\s]+)\s*by\s*(\S+)/   captures the creation time,
    /By:\s*(\S+)/                             captures the author.
  Each is modelled as a scan for its literal tag followed by the match the
  backtracking engine finds from that position; the first position that
  matches wins, and the captured group is trimmed as the caller does.
 */
module HeaderScan {

  import opened JsString
  import opened Wrappers

  datatype Pattern = CreatedPattern | ByPattern

  /** The literal each pattern starts with. */
  function Tag(pat: Pattern): string
  {
    match pat
    case CreatedPattern => "Created:"
    case ByPattern => "By:"
  }

  /** The character class `[0-9\-:\s]`. */
  predicate InStampClass(c: char)
  {
    ('0' <= c <= '9') || c == '-' || c == ':' || IsSpace(c)
  }

  /** A timestamp the `Created:` pattern gives back whole: characters of the
      class only, and no surrounding whitespace. */
  predicate StampField(c: string)
  {
    (forall k :: 0 <= k < |c| ==> InStampClass(c[k])) && Trimmed(c)
  }

  /** The pattern tried at index `i` of `s`, with its group trimmed. */
  function MatchAt(pat: Pattern, s: string, i: nat): (r: Option<string>)
    ensures r.Some? ==> OccursAt(s, Tag(pat), i) && Trimmed(r.value)
    ensures r.Some? && pat == ByPattern ==> r.value != [] && forall k :: 0 <= k < |r.value| ==> !IsSpace(r.value[k])
    ensures r.Some? && pat == CreatedPattern ==> StampField(r.value)
  {
    if i > |s| then None
    else
      var r := MatchStart(pat, s[i..]);
      assert r.Some? ==> s[i..][..|Tag(pat)|] == s[i..i + |Tag(pat)|];
      r
  }

  /** The pattern tried at the start of `t`. */
  function MatchStart(pat: Pattern, t: string): (r: Option<string>)
    ensures r.Some? ==> |Tag(pat)| <= |t| && t[..|Tag(pat)|] == Tag(pat) && Trimmed(r.value)
    ensures r.Some? && pat == ByPattern ==> r.value != [] && forall k :: 0 <= k < |r.value| ==> !IsSpace(r.value[k])
    ensures r.Some? && pat == CreatedPattern ==> StampField(r.value)
  {
    if |t| < |Tag(pat)| || t[..|Tag(pat)|] != Tag(pat) then None
    else match pat
      case ByPattern => ByAt(t)
      case CreatedPattern => CreatedAt(t)
  }

  /** `By:\s*(\S+)` at the start of `t`: the whitespace after the tag, then the
      longest run of non-whitespace, of which there must be at least one. */
  function ByAt(t: string): (r: Option<string>)
    requires 3 <= |t|
    ensures r.Some? ==> r.value != [] && Trimmed(r.value)
    ensures r.Some? ==> forall k :: 0 <= k < |r.value| ==> !IsSpace(r.value[k])
  {
    var j := RunEnd(t, 3, IsSpace);
    if j == |t| then None
    else
      var token := t[j..RunEnd(t, j, NotSpace)];
      assert token != [] && Trimmed(token);
      TrimKeeps(token);
      Some(Trim(token))
  }

  /** `Created:\s*([0-9\-:\s]+)\s*by\s*(\S+)` at the start of `t`.  `q` ends
      the run of class characters after the tag: the group and the whitespace
      around it cover exactly that run, since `b` is outside the class, so the
      match needs `by` at `q` and a non-space character after it.  Greedy
      matching makes the group start after the leading whitespace or, when the
      run is whitespace only, be its last character. */
  function CreatedAt(t: string): (r: Option<string>)
    requires 8 <= |t|
    ensures r.Some? ==> StampField(r.value)
  {
    var w := RunEnd(t, 8, IsSpace);
    var q := RunEnd(t, 8, InStampClass);
    if q == 8 || !OccursAt(t, "by", q) || RunEnd(t, q + 2, IsSpace) == |t| then None
    else
      var group := if w < q then t[w..q] else t[q - 1..q];
      assert forall k :: 0 <= k < |group| ==> InStampClass(group[k]);
      TrimInside(group);
      Some(Trim(group))
  }

  /** `trim` leaves a string without surrounding whitespace alone. */
  lemma TrimKeeps(x: string)
    requires Trimmed(x)
    ensures Trim(x) == x
  {
    TrimStrips([], x, []);
    assert [] + x + [] == x;
  }

  /** Trimming keeps only characters of the string. */
  lemma TrimInside(g: string)
    requires forall k :: 0 <= k < |g| ==> InStampClass(g[k])
    ensures StampField(Trim(g))
  {
    var a := RunEnd(g, 0, IsSpace);
    var e := TrimEndFrom(g, a, |g|);
    assert Trim(g) == g[a..e];
  }

  /** The first match at or after `from`, as `String.prototype.match` finds it. */
  function FirstMatch(pat: Pattern, s: string, from: nat): (r: Option<string>)
    decreases |s| - from
  {
    if from + |Tag(pat)| > |s| then None
    else if MatchAt(pat, s, from).Some? then MatchAt(pat, s, from)
    else FirstMatch(pat, s, from + 1)
  }

  /** `match` returns the group of the leftmost position where the pattern
      matches, and nothing when it matches nowhere. */
  lemma FirstMatchIsLeftmost(pat: Pattern, s: string, from: nat)
    ensures FirstMatch(pat, s, from).None? <==> forall i :: from <= i ==> MatchAt(pat, s, i).None?
    ensures FirstMatch(pat, s, from).Some? ==>
              exists i :: from <= i && MatchAt(pat, s, i) == FirstMatch(pat, s, from)
                          && forall j :: from <= j < i ==> MatchAt(pat, s, j).None?
  {
    FirstMatchNone(pat, s, from);
    if FirstMatch(pat, s, from).Some? {
      var i := FirstMatchAt(pat, s, from);
    }
  }

  /** `match` finds nothing exactly when the pattern matches nowhere. */
  lemma {:induction false} FirstMatchNone(pat: Pattern, s: string, from: nat)
    ensures FirstMatch(pat, s, from).None? <==> forall i :: from <= i ==> MatchAt(pat, s, i).None?
    decreases |s| - from
  {
    if from + |Tag(pat)| > |s| {
      forall i | from <= i ensures MatchAt(pat, s, i).None? { }
    } else if MatchAt(pat, s, from).None? {
      assert FirstMatch(pat, s, from) == FirstMatch(pat, s, from + 1);
      FirstMatchNone(pat, s, from + 1);
      if FirstMatch(pat, s, from).None? {
        forall i | from <= i ensures MatchAt(pat, s, i).None? {
          if i > from { }
        }
      }
    }
  }

  /** What `match` finds is the group at a position where the pattern matches
      and nowhere before it. */
  lemma {:induction false} FirstMatchAt(pat: Pattern, s: string, from: nat) returns (i: nat)
    requires FirstMatch(pat, s, from).Some?
    ensures from <= i && MatchAt(pat, s, i) == FirstMatch(pat, s, from)
    ensures forall j :: from <= j < i ==> MatchAt(pat, s, j).None?
    decreases |s| - from
  {
    if MatchAt(pat, s, from).Some? {
      i := from;
    } else {
      assert FirstMatch(pat, s, from) == FirstMatch(pat, s, from + 1);
      i := FirstMatchAt(pat, s, from + 1);
      forall j | from <= j < i ensures MatchAt(pat, s, j).None? {
        if j > from { }
      }
    }
  }

  /** The creation time read from a header's text. */
  function MatchCreated(s: string): Option<string>
  {
    FirstMatch(CreatedPattern, s, 0)
  }

  /** The author read from a header's text. */
  function MatchGithubUser(s: string): Option<string>
  {
    FirstMatch(ByPattern, s, 0)
  }

  /** Positions where the tag does not occur are skipped. */
  lemma {:induction false} SkipsTaglessPrefix(pat: Pattern, s: string, from: nat, k: nat)
    requires from <= k
    requires forall i :: from <= i < k ==> !OccursAt(s, Tag(pat), i)
    ensures FirstMatch(pat, s, from) == FirstMatch(pat, s, k)
    decreases k - from
  {
    if from < k {
      if from + |Tag(pat)| > |s| {
        assert forall i :: from <= i ==> MatchAt(pat, s, i).None?;
      } else {
        SkipsTaglessPrefix(pat, s, from + 1, k);
      }
    }
  }

  /** A run is recognised by its characters and by what stops it. */
  lemma RunEndIs(s: string, i: nat, inRun: char -> bool, j: nat)
    requires i <= j <= |s|
    requires forall k :: i <= k < j ==> inRun(s[k])
    requires j == |s| || !inRun(s[j])
    ensures RunEnd(s, i, inRun) == j
  {
  }

  /** Searching from the end of `x` in `x + y` is searching `y`: both search
      the same remaining text. */
  lemma FirstMatchShift(pat: Pattern, x: string, y: string)
    ensures FirstMatch(pat, x + y, |x|) == FirstMatch(pat, y, 0)
  {
    FirstMatchIsSuffixSearch(pat, x + y, |x|);
    FirstMatchIsSuffixSearch(pat, y, 0);
    assert (x + y)[|x|..] == y[0..];
  }

  /** The search for the pattern over the text that remains from some index on. */
  function SuffixSearch(pat: Pattern, t: string): Option<string>
    decreases |t|
  {
    if |Tag(pat)| > |t| then None
    else if MatchStart(pat, t).Some? then MatchStart(pat, t)
    else SuffixSearch(pat, t[1..])
  }

  /** Searching from `from` depends only on the text from `from` on. */
  lemma {:induction false} FirstMatchIsSuffixSearch(pat: Pattern, s: string, from: nat)
    requires from <= |s|
    ensures FirstMatch(pat, s, from) == SuffixSearch(pat, s[from..])
    decreases |s| - from
  {
    if from + |Tag(pat)| <= |s| {
      assert MatchAt(pat, s, from) == MatchStart(pat, s[from..]);
      if MatchStart(pat, s[from..]).None? {
        assert s[from..][1..] == s[from + 1..];
        FirstMatchIsSuffixSearch(pat, s, from + 1);
      }
    }
  }

  /** The first match in `u + y` is the first in `y` when `u` avoids the tag
      and ends in a character outside it. */
  lemma SkipsPrefix(pat: Pattern, u: string, y: string)
    requires Avoids(u, Tag(pat)) && (u == [] || u[|u| - 1] !in Tag(pat))
    ensures FirstMatch(pat, u + y, 0) == FirstMatch(pat, y, 0)
  {
    if u != [] {
      NoneBefore(u, y, Tag(pat));
    }
    SkipsTaglessPrefix(pat, u + y, 0, |u|);
    FirstMatchShift(pat, u, y);
  }

  /** The author is read back from `By: <author>` when no earlier `By:`
      occurs and whitespace follows the author. */
  lemma FindsAuthor(u: string, author: string, v: string)
    requires Avoids(u, "By:") && (u == [] || u[|u| - 1] == ' ')
    requires author != [] && forall k :: 0 <= k < |author| ==> !IsSpace(author[k])
    requires v != [] && IsSpace(v[0])
    ensures MatchGithubUser(u + "By: " + author + v) == Some(author)
  {
    var y := "By: " + author + v;
    assert u + "By: " + author + v == u + y;
    SkipsPrefix(ByPattern, u, y);
    assert FirstMatch(ByPattern, y, 0) == Some(author) by {
      AuthorAtStart(author, v);
      MatchesAtStart(ByPattern, y, author);
    }
  }

  lemma AuthorAtStart(author: string, v: string)
    requires author != [] && forall k :: 0 <= k < |author| ==> !IsSpace(author[k])
    requires v != [] && IsSpace(v[0])
    ensures MatchStart(ByPattern, "By: " + author + v) == Some(author)
  {
    var y := "By: " + author + v;
    assert y[..3] == "By:";
    assert y[3] == ' ' && y[4] == author[0];
    RunEndIs(y, 3, IsSpace, 4);
    forall k | 0 <= k < |author| ensures y[4 + k] == author[k] { }
    assert y[4 + |author|] == v[0];
    RunEndIs(y, 4, NotSpace, 4 + |author|);
    assert y[4..4 + |author|] == author;
    TrimKeeps(author);
  }

  /** The creation time is read back from `Created: <time> by <author>` when
      no earlier `Created:` occurs. */
  lemma FindsCreated(u: string, c: string, author: string, v: string)
    requires Avoids(u, "Created:") && (u == [] || u[|u| - 1] == ' ')
    requires StampField(c)
    requires author != [] && !IsSpace(author[0])
    ensures MatchCreated(u + "Created: " + c + " by " + author + v) == Some(c)
  {
    var y := "Created: " + c + " by " + author + v;
    assert u + "Created: " + c + " by " + author + v == u + y;
    SkipsPrefix(CreatedPattern, u, y);
    assert FirstMatch(CreatedPattern, y, 0) == Some(c) by {
      CreatedAtStart(c, author, v);
      MatchesAtStart(CreatedPattern, y, c);
    }
  }

  /** A match at the very start is the one `match` returns. */
  lemma MatchesAtStart(pat: Pattern, y: string, r: string)
    requires MatchStart(pat, y) == Some(r)
    ensures FirstMatch(pat, y, 0) == Some(r)
  {
    assert y[0..] == y;
  }

  lemma CreatedAtStart(c: string, author: string, v: string)
    requires StampField(c)
    requires author != [] && !IsSpace(author[0])
    ensures MatchStart(CreatedPattern, "Created: " + c + " by " + author + v) == Some(c)
  {
    var y := "Created: " + c + " by " + author + v;
    var q := |c| + 10;
    assert y[..8] == "Created:";
    StampRun(c, author, v);
    assert y[q..q + 2] == "by";
    assert y[q + 2] == ' ' && y[q + 3] == author[0];
    RunEndIs(y, q + 2, IsSpace, q + 3);
    StampGroup(c, author, v);
  }

  /** After `Created:` the class run covers ` <time> ` and stops at `b`. */
  lemma StampRun(c: string, author: string, v: string)
    requires forall k :: 0 <= k < |c| ==> InStampClass(c[k])
    ensures var y := "Created: " + c + " by " + author + v;
            |y| > |c| + 11 && RunEnd(y, 8, InStampClass) == |c| + 10
  {
    var y := "Created: " + c + " by " + author + v;
    var q := |c| + 10;
    assert y[8] == ' ' && y[q - 1] == ' ' && y[q] == 'b';
    forall k | 8 <= k < q ensures InStampClass(y[k]) {
      if 9 <= k < q - 1 {
        assert y[k] == c[k - 9];
      }
    }
    RunEndIs(y, 8, InStampClass, q);
  }

  /** The captured group of ` <time> ` trims to the time. */
  lemma StampGroup(c: string, author: string, v: string)
    requires Trimmed(c)
    ensures var y := "Created: " + c + " by " + author + v;
            var q := |c| + 10;
            var w := RunEnd(y, 8, IsSpace);
            q <= |y| && (w < q ==> Trim(y[w..q]) == c) && (w >= q ==> Trim(y[q - 1..q]) == c)
  {
    var y := "Created: " + c + " by " + author + v;
    var q := |c| + 10;
    assert y[8] == ' ' && y[q - 1] == ' ' && y[q] == 'b';
    if c == [] {
      RunEndIs(y, 8, IsSpace, q);
      assert y[q - 1..q] == " ";
      TrimStrips(" ", [], []);
      assert " " + [] + [] == " ";
    } else {
      assert y[9] == c[0];
      RunEndIs(y, 8, IsSpace, 9);
      assert y[9..q] == c + " ";
      TrimStrips([], c, " ");
      assert [] + c + " " == c + " ";
    }
  }
}
