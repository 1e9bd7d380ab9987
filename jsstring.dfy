/**
  Models of the JavaScript string built-ins the header engine relies on:
  `indexOf`, `lastIndexOf`, `padEnd`, `padStart`, `split`, `Array.join`,
  `trim` and the whitespace class `\s`.  Strings are sequences of characters.
 */
module JsString {

  function Min(a: int, b: int): int
  {
    if a <= b then a else b
  }

  /** `p` occurs in `t` starting at index `i`. */
  predicate OccursAt(t: string, p: string, i: int)
  {
    0 <= i && i + |p| <= |t| && t[i..i + |p|] == p
  }

  /** `p` occurs nowhere in `t`. */
  predicate Avoids(t: string, p: string)
  {
    forall i :: 0 <= i <= |t| ==> !OccursAt(t, p, i)
  }

  /** `t.indexOf(p, from)`: the first occurrence at or after `from`
      (clamped to the length of `t`), or -1 when there is none. */
  function IndexOf(t: string, p: string, from: nat): (r: int)
    ensures r == -1 ==> forall i :: Min(from, |t|) <= i ==> !OccursAt(t, p, i)
    ensures r != -1 ==> Min(from, |t|) <= r && OccursAt(t, p, r)
    ensures r != -1 ==> forall i :: Min(from, |t|) <= i < r ==> !OccursAt(t, p, i)
    decreases if from <= |t| then |t| - from else |t| + 1
  {
    if from > |t| then IndexOf(t, p, |t|)
    else if OccursAt(t, p, from) then from
    else if from == |t| then -1
    else IndexOf(t, p, from + 1)
  }

  /** An occurrence at `r` with none between `from` and `r` is what `indexOf` finds. */
  lemma IndexOfIs(t: string, p: string, from: nat, r: nat)
    requires from <= r && OccursAt(t, p, r)
    requires forall j :: from <= j < r ==> !OccursAt(t, p, j)
    ensures IndexOf(t, p, from) == r
  {
  }

  /** `t.lastIndexOf(p, from)`: the last occurrence starting at or before
      `from` (clamped to the length of `t`), or -1 when there is none. */
  function LastIndexOf(t: string, p: string, from: nat): (r: int)
    ensures r == -1 ==> forall i :: i <= Min(from, |t|) ==> !OccursAt(t, p, i)
    ensures r != -1 ==> 0 <= r <= Min(from, |t|) && OccursAt(t, p, r)
    ensures r != -1 ==> forall i :: r < i <= Min(from, |t|) ==> !OccursAt(t, p, i)
    decreases from
  {
    if from > |t| then LastIndexOf(t, p, |t|)
    else if OccursAt(t, p, from) then from
    else if from == 0 then -1
    else LastIndexOf(t, p, from - 1)
  }

  /** The whitespace of JavaScript regular expressions (`\s`), which is also
      what `String.prototype.trim` removes. */
  predicate IsSpace(c: char)
  {
    c == ' ' || c == '\t' || c == '\n' || c == '\U{000B}' || c == '\U{000C}' || c == '\r'
    || c == '\U{00A0}' || c == '\U{1680}' || ('\U{2000}' <= c <= '\U{200A}')
    || c == '\U{2028}' || c == '\U{2029}' || c == '\U{202F}' || c == '\U{205F}'
    || c == '\U{3000}' || c == '\U{FEFF}'
  }

  predicate NotSpace(c: char)
  {
    !IsSpace(c)
  }

  predicate AllSpace(s: string)
  {
    forall k :: 0 <= k < |s| ==> IsSpace(s[k])
  }

  /** The end of the longest run of characters satisfying `inRun` that starts at `i`. */
  function RunEnd(s: string, i: nat, inRun: char -> bool): (j: nat)
    requires i <= |s|
    ensures i <= j <= |s|
    ensures forall k :: i <= k < j ==> inRun(s[k])
    ensures j == |s| || !inRun(s[j])
    decreases |s| - i
  {
    if i == |s| || !inRun(s[i]) then i else RunEnd(s, i + 1, inRun)
  }

  /** The run starting at `|x| + i` in `x + y` is the run starting at `i` in `y`. */
  lemma {:induction false} RunEndShift(x: string, y: string, i: nat, inRun: char -> bool)
    requires i <= |y|
    ensures RunEnd(x + y, |x| + i, inRun) == |x| + RunEnd(y, i, inRun)
    decreases |y| - i
  {
    if i < |y| {
      assert (x + y)[|x| + i] == y[i];
      if inRun(y[i]) {
        RunEndShift(x, y, i + 1, inRun);
      }
    }
  }

  /** The start of the whitespace run that ends at `b`, but not before `lo`. */
  function TrimEndFrom(s: string, lo: nat, b: nat): (e: nat)
    requires lo <= b <= |s|
    ensures lo <= e <= b
    ensures forall k :: e <= k < b ==> IsSpace(s[k])
    ensures e == lo || !IsSpace(s[e - 1])
    decreases b
  {
    if b == lo || !IsSpace(s[b - 1]) then b else TrimEndFrom(s, lo, b - 1)
  }

  /** `s.trim()`. */
  function Trim(s: string): (r: string)
    ensures |r| <= |s|
    ensures r == [] || (!IsSpace(r[0]) && !IsSpace(r[|r| - 1]))
  {
    var a := RunEnd(s, 0, IsSpace);
    s[a..TrimEndFrom(s, a, |s|)]
  }

  /** A string with no whitespace at either end, which `trim` leaves alone. */
  predicate Trimmed(x: string)
  {
    x == [] || (!IsSpace(x[0]) && !IsSpace(x[|x| - 1]))
  }

  /** `trim` removes exactly the surrounding whitespace. */
  lemma TrimStrips(w1: string, x: string, w2: string)
    requires AllSpace(w1) && AllSpace(w2) && Trimmed(x)
    ensures Trim(w1 + x + w2) == x
  {
    var s := w1 + x + w2;
    var a := RunEnd(s, 0, IsSpace);
    if x == [] {
      assert AllSpace(s) by {
        forall k | 0 <= k < |s| ensures IsSpace(s[k]) {
          if k < |w1| { assert s[k] == w1[k]; } else { assert s[k] == w2[k - |w1|]; }
        }
      }
      assert a == |s|;
    } else {
      assert s[|w1|] == x[0];
      assert a == |w1|;
      var e := TrimEndFrom(s, a, |s|);
      assert s[|w1| + |x| - 1] == x[|x| - 1];
      assert e == |w1| + |x|;
      assert s[a..e] == x;
    }
  }

  /** `n` copies of `c`. */
  function Repeat(c: char, n: nat): (r: string)
    ensures |r| == n && forall k :: 0 <= k < n ==> r[k] == c
  {
    seq(n, _ => c)
  }

  /** `n` spaces. */
  function Spaces(n: nat): (r: string)
    ensures |r| == n && AllSpace(r) && forall k :: 0 <= k < n ==> r[k] == ' '
  {
    Repeat(' ', n)
  }

  /** `s.padEnd(n)`: spaces appended up to length `n`; a longer `s` is kept whole. */
  function PadEnd(s: string, n: nat): (r: string)
    ensures |r| == if |s| >= n then |s| else n
    ensures r[..|s|] == s
    ensures forall k :: |s| <= k < |r| ==> r[k] == ' '
  {
    if |s| >= n then s else s + Spaces(n - |s|)
  }

  /** `s.padStart(n, fill)`. */
  function PadStart(s: string, n: nat, fill: char): (r: string)
    ensures |r| == if |s| >= n then |s| else n
    ensures r[|r| - |s|..] == s
    ensures forall k :: 0 <= k < |r| - |s| ==> r[k] == fill
  {
    if |s| >= n then s else seq(n - |s|, _ => fill) + s
  }

  /** `ws.join(sep)`. */
  function Join(ws: seq<string>, sep: char): string
  {
    if |ws| == 0 then ""
    else if |ws| == 1 then ws[0]
    else ws[0] + [sep] + Join(ws[1..], sep)
  }

  /** `s.split(sep)`: the pieces between separators, always at least one. */
  function Split(s: string, sep: char): (r: seq<string>)
    ensures |r| >= 1
    ensures forall k :: 0 <= k < |r| ==> sep !in r[k]
    ensures Join(r, sep) == s
  {
    if |s| == 0 then [""]
    else
      var rest := Split(s[1..], sep);
      if s[0] == sep then
        assert [""] + rest == [""] + rest;
        assert ([""] + rest)[1..] == rest;
        [""] + rest
      else
        var r := [[s[0]] + rest[0]] + rest[1..];
        assert r[1..] == rest[1..];
        assert Join(r, sep) == s by {
          if |rest| == 1 {
            assert Join(rest, sep) == rest[0];
          } else {
            assert Join(rest, sep) == rest[0] + [sep] + Join(rest[1..], sep);
          }
        }
        r
  }

  /** Concatenation regroups. */
  lemma Assoc<T>(a: seq<T>, b: seq<T>, c: seq<T>)
    ensures a + b + c == a + (b + c)
  {
  }

  /** Joining two non-empty lists puts one separator between their joins. */
  lemma {:induction false} JoinAppend(a: seq<string>, b: seq<string>, sep: char)
    requires |a| >= 1 && |b| >= 1
    ensures Join(a + b, sep) == Join(a, sep) + [sep] + Join(b, sep)
    decreases |a|
  {
    if |a| == 1 {
      assert (a + b)[1..] == b;
    } else {
      assert (a + b)[1..] == a[1..] + b;
      JoinAppend(a[1..], b, sep);
    }
  }

  /** Splitting a separator-free piece followed by a separator peels that piece off. */
  lemma {:induction false} SplitPeel(w: string, rest: string, sep: char)
    requires sep !in w
    ensures Split(w + [sep] + rest, sep) == [w] + Split(rest, sep)
    decreases |w|
  {
    if w == [] {
      assert (w + [sep] + rest)[1..] == rest;
    } else {
      assert (w + [sep] + rest)[1..] == w[1..] + [sep] + rest;
      SplitPeel(w[1..], rest, sep);
      assert [w[0]] + w[1..] == w;
    }
  }

  /** `split` undoes `join` when no piece contains the separator. */
  lemma {:induction false} SplitJoin(ws: seq<string>, sep: char)
    requires |ws| >= 1
    requires forall k :: 0 <= k < |ws| ==> sep !in ws[k]
    ensures Split(Join(ws, sep), sep) == ws
    decreases |ws|
  {
    if |ws| == 1 {
      SplitWhole(ws[0], sep);
    } else {
      SplitJoin(ws[1..], sep);
      SplitPeel(ws[0], Join(ws[1..], sep), sep);
      assert [ws[0]] + ws[1..] == ws;
    }
  }

  /** A string without the separator splits into itself. */
  lemma {:induction false} SplitWhole(w: string, sep: char)
    requires sep !in w
    ensures Split(w, sep) == [w]
    decreases |w|
  {
    if w != [] {
      SplitWhole(w[1..], sep);
      assert [w[0]] + w[1..] == w;
    }
  }

  /** The last piece of a join is a suffix, preceded by the separator when
      there is more than one piece. */
  lemma {:induction false} JoinLast(ws: seq<string>, sep: char)
    requires |ws| >= 2
    ensures Join(ws, sep) == Join(ws[..|ws| - 1], sep) + [sep] + ws[|ws| - 1]
  {
    JoinAppend(ws[..|ws| - 1], [ws[|ws| - 1]], sep);
    assert ws[..|ws| - 1] + [ws[|ws| - 1]] == ws;
  }

  /** A piece strictly inside a join, with the joins on either side of it. */
  lemma JoinAround(ws: seq<string>, k: nat, sep: char)
    requires 0 < k < |ws| - 1
    ensures Join(ws, sep) == Join(ws[..k], sep) + [sep] + ws[k] + [sep] + Join(ws[k + 1..], sep)
  {
    JoinAppend(ws[..k], ws[k..], sep);
    assert ws[..k] + ws[k..] == ws;
    assert ws[k..] == [ws[k]] + ws[k + 1..];
    JoinAppend([ws[k]], ws[k + 1..], sep);
  }

  /** A join is at least as long as its last piece. */
  lemma JoinCoversLast(ws: seq<string>, sep: char)
    requires |ws| >= 1
    ensures |Join(ws, sep)| >= |ws[|ws| - 1]|
  {
    if |ws| >= 2 {
      JoinLast(ws, sep);
    }
  }

  // ----- Where a pattern can and cannot occur -----

  /** A string missing one of the pattern's characters avoids the pattern. */
  lemma AvoidsByChar(t: string, p: string, c: char)
    requires c in p && c !in t
    ensures Avoids(t, p)
  {
    forall i | 0 <= i <= |t| ensures !OccursAt(t, p, i) {
    }
  }

  /** An occurrence in `x + y` after `x` is an occurrence in `y`. */
  lemma OccursShift(x: string, y: string, p: string, i: int)
    requires 0 <= i
    ensures OccursAt(x + y, p, |x| + i) <==> OccursAt(y, p, i)
  {
    if |x| + i + |p| <= |x + y| {
      assert (x + y)[|x| + i..|x| + i + |p|] == y[i..i + |p|];
    }
  }

  /** An occurrence in `x + y` inside `x` is an occurrence in `x`. */
  lemma OccursPrefix(x: string, y: string, p: string, i: int)
    requires 0 <= i && i + |p| <= |x|
    ensures OccursAt(x + y, p, i) <==> OccursAt(x, p, i)
  {
    assert (x + y)[i..i + |p|] == x[i..i + |p|];
  }

  /** `p` occurs where it is put. */
  lemma OccursMiddle(x: string, p: string, y: string)
    ensures OccursAt(x + p + y, p, |x|)
  {
    assert (x + p + y)[|x|..|x| + |p|] == p;
  }

  /** An occurrence covering index `k` would put `t[k]` into the pattern. */
  lemma OccursCovers(t: string, p: string, i: int, k: int)
    requires OccursAt(t, p, i) && i <= k < i + |p|
    ensures t[k] in p
  {
    assert t[k] == t[i..i + |p|][k - i];
  }

  /** An occurrence of `m` at `j` holds the occurrence of `S` that `m` holds at `p`. */
  lemma OccursWithin(t: string, m: string, j: int, S: string, p: nat)
    requires OccursAt(t, m, j) && p + |S| <= |m| && m[p..p + |S|] == S
    ensures OccursAt(t, S, j + p)
  {
    var w := t[j..j + |m|];
    forall k | 0 <= k < |S| ensures t[j + p + k] == S[k] {
      assert t[j + p + k] == w[p + k] == m[p + k] == m[p..p + |S|][k];
    }
    assert t[j + p..j + p + |S|] == S;
  }

  /** No occurrence starts inside `a` when `a` avoids the pattern and ends
      with a character the pattern lacks. */
  lemma NoneBefore(a: string, b: string, p: string)
    requires Avoids(a, p) && |a| > 0 && a[|a| - 1] !in p
    ensures forall i :: i < |a| ==> !OccursAt(a + b, p, i)
  {
    forall i | i < |a| ensures !OccursAt(a + b, p, i) {
      if !OccursAt(a + b, p, i) {
      } else if i + |p| <= |a| {
        OccursPrefix(a, b, p, i);
      } else {
        OccursCovers(a + b, p, i, |a| - 1);
      }
    }
  }

  /** Two pieces that avoid a pattern, with a boundary character the pattern
      lacks, make a string that avoids it. */
  lemma AvoidsConcat(a: string, b: string, p: string)
    requires Avoids(a, p) && Avoids(b, p)
    requires (|a| > 0 && a[|a| - 1] !in p) || (|b| > 0 && b[0] !in p)
    ensures Avoids(a + b, p)
  {
    forall i | 0 <= i <= |a + b| ensures !OccursAt(a + b, p, i) {
      if !OccursAt(a + b, p, i) {
      } else if i + |p| <= |a| {
        OccursPrefix(a, b, p, i);
      } else if i >= |a| {
        OccursShift(a, b, p, i - |a|);
      } else if |a| > 0 && a[|a| - 1] !in p {
        OccursCovers(a + b, p, i, |a| - 1);
      } else {
        OccursCovers(a + b, p, i, |a|);
      }
    }
  }

  /** Two pieces joined by a character the pattern lacks. */
  lemma AvoidsAround(a: string, c: char, b: string, p: string)
    requires Avoids(a, p) && Avoids(b, p) && c !in p && |p| >= 2
    ensures Avoids(a + [c] + b, p)
  {
    AvoidsByChar([c], p, p[0]) by {
      if p[0] == c { assert false; }
    }
    AvoidsConcat(a, [c], p);
    AvoidsConcat(a + [c], b, p);
  }

  /** A joined list avoids a pattern its pieces and its separator avoid. */
  lemma {:induction false} AvoidsJoin(ws: seq<string>, sep: char, p: string)
    requires forall k :: 0 <= k < |ws| ==> Avoids(ws[k], p)
    requires sep !in p && |p| >= 2
    ensures Avoids(Join(ws, sep), p)
    decreases |ws|
  {
    if |ws| == 0 {
      assert forall i :: !OccursAt("", p, i);
    } else if |ws| > 1 {
      AvoidsJoin(ws[1..], sep, p);
      AvoidsAround(ws[0], sep, Join(ws[1..], sep), p);
    }
  }
}
