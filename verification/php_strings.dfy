/** The PHP string behaviour the hierarchy tab relies on: truthiness of a
    string, `rtrim` with a one-character mask, and `str_replace` with a single
    search string. Strings are sequences of characters; PHP works on bytes,
    but nothing here depends on the encoding. */
module PhpStrings {

  /** PHP truthiness of a string: only "" and "0" are falsy. */
  predicate Truthy(s: string) {
    s != "" && s != "0"
  }

  /** `needle` occurs in `s` starting at index `i`. */
  predicate OccursAt(s: string, needle: string, i: int) {
    0 <= i && i + |needle| <= |s| && s[i..i + |needle|] == needle
  }

  /** `needle` occurs somewhere in `s`. */
  predicate Contains(s: string, needle: string) {
    exists i :: 0 <= i <= |s| && OccursAt(s, needle, i)
  }

  predicate StartsWith(s: string, prefix: string) {
    |prefix| <= |s| && s[..|prefix|] == prefix
  }

  /** Every character of `s` from index `from` on is `c`. */
  predicate AllFrom(s: string, from: nat, c: char) {
    forall i :: from <= i < |s| ==> s[i] == c
  }

  // ---------------------------------------------------------------------
  // rtrim($s, $c)
  // ---------------------------------------------------------------------

  /** `rtrim(s, c)`: removes every trailing occurrence of `c`. The result is
      the prefix of `s` that no longer ends in `c`, and only copies of `c` were
      cut off. */
  function RTrim(s: string, c: char): (r: string)
    ensures r <= s
    ensures |r| == 0 || r[|r| - 1] != c
    ensures AllFrom(s, |r|, c)
    decreases |s|
  {
    if |s| > 0 && s[|s| - 1] == c then RTrim(s[..|s| - 1], c) else s
  }

  /** The three properties `RTrim` promises pin its result down: any prefix of
      `s` that does not end in `c` and is followed only by copies of `c` is
      exactly `RTrim(s, c)`. */
  lemma RTrimUnique(s: string, c: char, p: string)
    requires p <= s
    requires |p| == 0 || p[|p| - 1] != c
    requires AllFrom(s, |p|, c)
    ensures p == RTrim(s, c)
  {
    var r := RTrim(s, c);
    if |r| > 0 {
      assert r[|r| - 1] == s[|r| - 1];
    }
    if |p| > 0 {
      assert p[|p| - 1] == s[|p| - 1];
    }
    assert |p| == |r|;
    assert p == s[..|p|] == r;
  }

  /** Trimming twice trims nothing more. */
  lemma RTrimIdempotent(s: string, c: char)
    ensures RTrim(RTrim(s, c), c) == RTrim(s, c)
  {
    var r := RTrim(s, c);
    RTrimUnique(r, c, r);
  }

  // ---------------------------------------------------------------------
  // str_replace($needle, $replacement, $s)
  // ---------------------------------------------------------------------

  /** `str_replace(needle, replacement, s)` for one search string: scans `s`
      left to right, replaces each occurrence of `needle` by `replacement` and
      continues after it, so occurrences never overlap and the inserted text is
      not scanned again. An empty `needle` leaves `s` unchanged, as PHP does. */
  function ReplaceAll(s: string, needle: string, replacement: string): (r: string)
    decreases |s|
  {
    if |needle| == 0 || |s| == 0 then s
    else if StartsWith(s, needle) then
      replacement + ReplaceAll(s[|needle|..], needle, replacement)
    else
      [s[0]] + ReplaceAll(s[1..], needle, replacement)
  }

  /** The scan at an occurrence: the needle becomes the replacement and the
      scan resumes right after it. */
  lemma ReplaceAllAtNeedle(needle: string, rest: string, replacement: string)
    requires |needle| > 0
    ensures ReplaceAll(needle + rest, needle, replacement) ==
              replacement + ReplaceAll(rest, needle, replacement)
  {
    var s := needle + rest;
    assert s[..|needle|] == needle;
    assert s[|needle|..] == rest;
  }

  /** The scan at a character where the needle cannot start: the character is
      kept and the scan moves on by one. */
  lemma ReplaceAllAtOther(c: char, rest: string, needle: string, replacement: string)
    requires |needle| > 0 && c != needle[0]
    ensures ReplaceAll([c] + rest, needle, replacement) ==
              [c] + ReplaceAll(rest, needle, replacement)
  {
    var s := [c] + rest;
    assert !StartsWith(s, needle) by {
      if |needle| <= |s| {
        assert s[..|needle|][0] == c;
      }
    }
    assert s[1..] == rest;
  }

  /** Text in which the needle's first character never appears is copied by
      the scan unchanged. */
  lemma {:induction false} ReplaceAllKeepsPlainText(plain: string, rest: string, needle: string, replacement: string)
    requires |needle| > 0
    requires forall i :: 0 <= i < |plain| ==> plain[i] != needle[0]
    ensures ReplaceAll(plain + rest, needle, replacement) ==
              plain + ReplaceAll(rest, needle, replacement)
    decreases |plain|
  {
    if |plain| > 0 {
      ReplaceAllKeepsPlainText(plain[1..], rest, needle, replacement);
      ReplaceAllAtOther(plain[0], plain[1..] + rest, needle, replacement);
      assert plain + rest == [plain[0]] + (plain[1..] + rest);
      assert plain == [plain[0]] + plain[1..];
    } else {
      assert plain + rest == rest;
    }
  }

  /** Reference description of the same scan: the pieces of `s` between the
      occurrences of `needle` that a left-to-right, non-overlapping scan finds
      (PHP's `explode`). There is always at least one piece, and the first
      piece is a prefix of `s`. */
  function Split(s: string, needle: string): (pieces: seq<string>)
    ensures |pieces| >= 1
    ensures pieces[0] <= s
    decreases |s|
  {
    if |needle| == 0 || |s| == 0 then [s]
    else if StartsWith(s, needle) then
      [[]] + Split(s[|needle|..], needle)
    else
      var rest := Split(s[1..], needle);
      [[s[0]] + rest[0]] + rest[1..]
  }

  /** The pieces glued together with `sep` between neighbours (`implode`). */
  function Join(pieces: seq<string>, sep: string): (r: string)
  {
    if |pieces| == 0 then []
    else if |pieces| == 1 then pieces[0]
    else pieces[0] + sep + Join(pieces[1..], sep)
  }

  /** Prepending a character to the first piece prepends it to the join. */
  lemma JoinPrepend(c: char, pieces: seq<string>, sep: string)
    requires |pieces| >= 1
    ensures Join([[c] + pieces[0]] + pieces[1..], sep) == [c] + Join(pieces, sep)
  {
    var ps := [[c] + pieces[0]] + pieces[1..];
    assert ps[1..] == pieces[1..];
  }

  /** An empty first piece contributes only the separator. */
  lemma JoinEmptyFirst(pieces: seq<string>, sep: string)
    requires |pieces| >= 1
    ensures Join([[]] + pieces, sep) == sep + Join(pieces, sep)
  {
    var ps := [[]] + pieces;
    assert ps[1..] == pieces;
    assert ps[0] + sep == sep;
  }

  /** Splitting at `needle` and joining with `needle` gives `s` back: the
      pieces and the occurrences between them account for all of `s`. */
  lemma {:induction false} JoinSplit(s: string, needle: string)
    ensures Join(Split(s, needle), needle) == s
    decreases |s|
  {
    if |needle| == 0 || |s| == 0 {
    } else if StartsWith(s, needle) {
      var rest := Split(s[|needle|..], needle);
      JoinSplit(s[|needle|..], needle);
      JoinEmptyFirst(rest, needle);
      assert s == needle + s[|needle|..];
    } else {
      var rest := Split(s[1..], needle);
      JoinSplit(s[1..], needle);
      JoinPrepend(s[0], rest, needle);
      assert s == [s[0]] + s[1..];
    }
  }

  /** `str_replace` is the split/join reference with the replacement as the
      glue: every occurrence the left-to-right, non-overlapping scan meets
      becomes `replacement`, and the text between those occurrences is kept
      as it was. */
  lemma {:induction false} ReplaceAllIsJoinOfSplit(s: string, needle: string, replacement: string)
    ensures ReplaceAll(s, needle, replacement) == Join(Split(s, needle), replacement)
    decreases |s|
  {
    if |needle| == 0 || |s| == 0 {
    } else if StartsWith(s, needle) {
      var rest := Split(s[|needle|..], needle);
      ReplaceAllIsJoinOfSplit(s[|needle|..], needle, replacement);
      JoinEmptyFirst(rest, replacement);
    } else {
      var rest := Split(s[1..], needle);
      ReplaceAllIsJoinOfSplit(s[1..], needle, replacement);
      JoinPrepend(s[0], rest, replacement);
    }
  }

  /** The pieces `Split` keeps never contain `needle` as a whole: every
      occurrence the left-to-right, non-overlapping scan meets is cut out.
      An occurrence that overlaps one already cut out straddles a cut and is
      not replaced. */
  lemma {:induction false} SplitPiecesNeedleFree(s: string, needle: string)
    requires |needle| > 0
    ensures forall k :: 0 <= k < |Split(s, needle)| ==> !Contains(Split(s, needle)[k], needle)
    decreases |s|
  {
    var pieces := Split(s, needle);
    if |s| == 0 {
      forall k | 0 <= k < |pieces| ensures !Contains(pieces[k], needle) {
        NotContainsShorter(pieces[k], needle);
      }
    } else if StartsWith(s, needle) {
      var rest := Split(s[|needle|..], needle);
      SplitPiecesNeedleFree(s[|needle|..], needle);
      forall k | 0 <= k < |pieces| ensures !Contains(pieces[k], needle) {
        if k == 0 {
          NotContainsShorter(pieces[0], needle);
        } else {
          assert pieces[k] == rest[k - 1];
        }
      }
    } else {
      var rest := Split(s[1..], needle);
      SplitPiecesNeedleFree(s[1..], needle);
      forall k | 0 <= k < |pieces| ensures !Contains(pieces[k], needle) {
        if k == 0 {
          FirstPieceNeedleFree(s, needle, rest[0]);
        } else {
          assert pieces[k] == rest[k];
        }
      }
    }
  }

  /** An occurrence in the tail of `s` is an occurrence in `s`, one index on. */
  lemma OccursInTail(s: string, needle: string, i: int)
    requires |s| > 0 && 0 <= i
    ensures OccursAt(s[1..], needle, i) <==> OccursAt(s, needle, i + 1)
  {
    if i + |needle| <= |s| - 1 {
      assert s[1..][i..i + |needle|] == s[i + 1..i + 1 + |needle|];
    }
  }

  /** `Split` cuts where the left-to-right scan first meets `needle`: when
      there are several pieces, an occurrence starts right after the first
      piece and none starts inside it, and the remaining pieces are the split
      of what follows that occurrence, so by induction every later cut is the
      leftmost occurrence after the previous one; a single piece means
      `needle` does not occur at all. */
  lemma {:induction false} SplitCutsAtFirstOccurrence(s: string, needle: string)
    requires |needle| > 0
    ensures var pieces := Split(s, needle);
            |pieces| > 1 ==>
              OccursAt(s, needle, |pieces[0]|) &&
              forall i :: 0 <= i < |pieces[0]| ==> !OccursAt(s, needle, i)
    ensures var pieces := Split(s, needle);
            |pieces| > 1 ==>
              |pieces[0]| + |needle| <= |s| &&
              pieces[1..] == Split(s[|pieces[0]| + |needle|..], needle)
    ensures |Split(s, needle)| == 1 ==> !Contains(s, needle)
    decreases |s|
  {
    var pieces := Split(s, needle);
    if |s| == 0 {
      NotContainsShorter(s, needle);
    } else if StartsWith(s, needle) {
      assert s[0..|needle|] == s[..|needle|];
      SplitTailAfterCut(s, needle);
    } else {
      var rest := Split(s[1..], needle);
      SplitCutsAtFirstOccurrence(s[1..], needle);
      SplitTailAfterCut(s, needle);
      assert |pieces| == |rest| && |pieces[0]| == |rest[0]| + 1;
      assert !OccursAt(s, needle, 0) by {
        if |needle| <= |s| {
          assert s[0..|needle|] == s[..|needle|];
        }
      }
      forall i | 1 <= i <= |s| ensures OccursAt(s, needle, i) <==> OccursAt(s[1..], needle, i - 1) {
        OccursInTail(s, needle, i - 1);
      }
      if |rest| > 1 {
        OccursInTail(s, needle, |rest[0]|);
      } else {
        forall i | 0 <= i <= |s| ensures !OccursAt(s, needle, i) {
          if i > 0 {
            assert !OccursAt(s[1..], needle, i - 1);
          }
        }
      }
    }
  }

  /** After the first cut, the remaining pieces are the split of the text
      that follows the first occurrence. */
  lemma {:induction false} SplitTailAfterCut(s: string, needle: string)
    requires |needle| > 0
    ensures var pieces := Split(s, needle);
            |pieces| > 1 ==>
              |pieces[0]| + |needle| <= |s| &&
              pieces[1..] == Split(s[|pieces[0]| + |needle|..], needle)
    decreases |s|
  {
    var pieces := Split(s, needle);
    if |s| == 0 {
    } else if StartsWith(s, needle) {
      assert pieces[1..] == Split(s[|needle|..], needle);
    } else {
      var rest := Split(s[1..], needle);
      SplitTailAfterCut(s[1..], needle);
      assert pieces[1..] == rest[1..];
      if |rest| > 1 {
        assert s[1..][|rest[0]| + |needle|..] == s[|pieces[0]| + |needle|..];
      }
    }
  }

  /** A string shorter than a non-empty needle cannot contain it. */
  lemma NotContainsShorter(s: string, needle: string)
    requires |s| < |needle|
    ensures !Contains(s, needle)
  {
  }

  /** Step of `SplitPiecesNeedleFree` for a first piece that starts with a
      character where no occurrence begins. */
  lemma FirstPieceNeedleFree(s: string, needle: string, tail: string)
    requires |s| > 0 && |needle| > 0
    requires !StartsWith(s, needle)
    requires tail <= s[1..]
    requires !Contains(tail, needle)
    ensures !Contains([s[0]] + tail, needle)
  {
    var p := [s[0]] + tail;
    assert p <= s;
    forall i | 0 <= i <= |p| ensures !OccursAt(p, needle, i) {
      if i == 0 {
        if |needle| <= |p| {
          assert s[..|needle|] == p[..|needle|] == p[0..|needle|];
        }
      } else if i + |needle| <= |p| {
        assert p[i..i + |needle|] == tail[i - 1..i - 1 + |needle|];
        assert !OccursAt(tail, needle, i - 1);
      }
    }
  }

  /** A string without `needle` is a single piece. */
  lemma {:induction false} SplitAbsent(s: string, needle: string)
    requires !Contains(s, needle)
    ensures Split(s, needle) == [s]
    decreases |s|
  {
    if |needle| > 0 && |s| > 0 {
      assert StartsWith(s, needle) ==> OccursAt(s, needle, 0);
      forall i | 0 <= i <= |s[1..]| ensures !OccursAt(s[1..], needle, i) {
        if i + |needle| <= |s| - 1 {
          assert s[1..][i..i + |needle|] == s[i + 1..i + 1 + |needle|];
          assert !OccursAt(s, needle, i + 1);
        }
      }
      SplitAbsent(s[1..], needle);
      assert s == [s[0]] + s[1..];
    }
  }

  /** `str_replace` leaves a string without the search string unchanged. */
  lemma ReplaceAllAbsent(s: string, needle: string, replacement: string)
    requires !Contains(s, needle)
    ensures ReplaceAll(s, needle, replacement) == s
  {
    SplitAbsent(s, needle);
    ReplaceAllIsJoinOfSplit(s, needle, replacement);
  }

  /** Replacing the search string by itself changes nothing. */
  lemma ReplaceAllSelf(s: string, needle: string)
    ensures ReplaceAll(s, needle, needle) == s
  {
    ReplaceAllIsJoinOfSplit(s, needle, needle);
    JoinSplit(s, needle);
  }
}
