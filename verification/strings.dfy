/** Character-string helpers with the meaning Python 2 gives them: substring
    search, `str.split(sep[, maxsplit])`, the inverse join, `str.strip()` and
    `str.replace(c, "")`. Strings are sequences of characters. */
module Strings {
  import opened Common

  /** `sep` occurs in `s` starting at position `i`. */
  predicate OccursAt(s: string, sep: string, i: nat) {
    i + |sep| <= |s| && s[i..i + |sep|] == sep
  }

  /** Leftmost occurrence of `sep` in `s` at or after position `i`;
      `FindFromMeaning` states that it is the leftmost. */
  function FindFrom(s: string, sep: string, i: nat): (r: Option<nat>)
    requires |sep| > 0 && i <= |s|
    ensures r.Some? ==> i <= r.value && OccursAt(s, sep, r.value)
    decreases |s| - i
  {
    if i + |sep| > |s| then None
    else if s[i..i + |sep|] == sep then Some(i)
    else FindFrom(s, sep, i + 1)
  }

  /** `FindFrom` finds no occurrence before the one it returns, and none at
      all when it returns None. */
  lemma {:induction false} FindFromMeaning(s: string, sep: string, i: nat)
    requires |sep| > 0 && i <= |s|
    ensures FindFrom(s, sep, i).Some? ==> forall j :: i <= j < FindFrom(s, sep, i).value ==> !OccursAt(s, sep, j)
    ensures FindFrom(s, sep, i).None? ==> forall j :: i <= j <= |s| ==> !OccursAt(s, sep, j)
    decreases |s| - i
  {
    if i + |sep| <= |s| && s[i..i + |sep|] != sep {
      FindFromMeaning(s, sep, i + 1);
    }
  }

  /** Leftmost occurrence of `sep` in `s`, as Python's `str.find`;
      `FindFirstMeaning` states that it is the leftmost. */
  function FindFirst(s: string, sep: string): (r: Option<nat>)
    requires |sep| > 0
    ensures r.Some? ==> OccursAt(s, sep, r.value)
  {
    FindFrom(s, sep, 0)
  }

  /** `FindFirst` finds no occurrence before the one it returns, and none at
      all when it returns None. */
  lemma FindFirstMeaning(s: string, sep: string)
    requires |sep| > 0
    ensures FindFirst(s, sep).Some? ==> forall j :: 0 <= j < FindFirst(s, sep).value ==> !OccursAt(s, sep, j)
    ensures FindFirst(s, sep).None? ==> forall j :: 0 <= j <= |s| ==> !OccursAt(s, sep, j)
  {
    FindFromMeaning(s, sep, 0);
  }

  /** Concatenation of `parts` with `sep` between neighbours, as Python's
      `sep.join(parts)`. */
  function Join(parts: seq<string>, sep: string): string
  {
    if |parts| == 0 then ""
    else if |parts| == 1 then parts[0]
    else parts[0] + sep + Join(parts[1..], sep)
  }

  /** One fewer split left, or still unlimited. */
  function Decrement(maxsplit: Option<nat>): Option<nat>
  {
    match maxsplit
    case None => None
    case Some(n) => Some(if n == 0 then 0 else n - 1)
  }

  /** Python's `s.split(sep)` (when `maxsplit` is None) and
      `s.split(sep, maxsplit)`: cut `s` at the leftmost occurrences of `sep`,
      at most `maxsplit` times. The pieces joined back with `sep` give `s`
      again, and no piece but the last contains `sep`. */
  function Split(s: string, sep: string, maxsplit: Option<nat>): (r: seq<string>)
    requires |sep| > 0
    ensures 1 <= |r|
    ensures maxsplit.Some? ==> |r| <= maxsplit.value + 1
    ensures Join(r, sep) == s
    ensures SepFree(r[..|r| - 1], sep)
    ensures maxsplit.None? ==> FindFirst(r[|r| - 1], sep).None?
    decreases |s|
  {
    var found := FindFirst(s, sep);
    if maxsplit == Some(0) || found.None? then
      assert Join([s], sep) == s && SepFree([], sep);
      [s]
    else
      var i := found.value;
      var rest := Split(s[i + |sep|..], sep, Decrement(maxsplit));
      var parts := [s[..i]] + rest;
      SplitStep(s, sep, i, rest, parts, maxsplit.None?);
      parts
  }

  /** No piece of `pieces` contains `sep`. */
  predicate SepFree(pieces: seq<string>, sep: string)
    requires |sep| > 0
    decreases |pieces|
  {
    |pieces| == 0 || (FindFirst(pieces[0], sep).None? && SepFree(pieces[1..], sep))
  }

  /** `SepFree` says of every piece that it does not contain `sep`. */
  lemma {:induction false} SepFreeMeaning(pieces: seq<string>, sep: string)
    requires |sep| > 0
    ensures SepFree(pieces, sep) <==> forall k :: 0 <= k < |pieces| ==> FindFirst(pieces[k], sep).None?
    decreases |pieces|
  {
    if |pieces| > 0 {
      SepFreeMeaning(pieces[1..], sep);
      forall k | 1 <= k < |pieces|
        ensures pieces[k] == pieces[1..][k - 1]
      {
      }
    }
  }

  /** One cut of `Split`: the piece before the leftmost separator, then the
      pieces of the remainder, keep the properties `Split` promises. */
  lemma {:induction false} SplitStep(s: string, sep: string, i: nat, rest: seq<string>, parts: seq<string>, lastFree: bool)
    requires |sep| > 0 && FindFirst(s, sep) == Some(i)
    requires 1 <= |rest| && Join(rest, sep) == s[i + |sep|..]
    requires SepFree(rest[..|rest| - 1], sep)
    requires lastFree ==> FindFirst(rest[|rest| - 1], sep).None?
    requires parts == [s[..i]] + rest
    ensures |parts| == |rest| + 1
    ensures Join(parts, sep) == s
    ensures SepFree(parts[..|parts| - 1], sep)
    ensures lastFree ==> FindFirst(parts[|parts| - 1], sep).None?
  {
    var head := s[..i];
    assert FindFirst(head, sep).None? by {
      PrefixBeforeFirstOccurrence(s, sep, i);
    }
    assert Join(parts, sep) == s by {
      JoinAtOccurrence(s, sep, i, rest);
    }
    PiecesBeforeLast(head, rest, sep, lastFree);
  }

  /** Putting back the piece before an occurrence of `sep` in front of the
      pieces of the text after it rebuilds the text. */
  lemma {:induction false} JoinAtOccurrence(s: string, sep: string, i: nat, rest: seq<string>)
    requires OccursAt(s, sep, i)
    requires 1 <= |rest| && Join(rest, sep) == s[i + |sep|..]
    ensures Join([s[..i]] + rest, sep) == s
  {
    JoinCons(s[..i], rest, sep);
    CutAt(s, sep, i);
  }

  /** Joining a piece in front of at least one other puts the separator
      between it and the join of the others. */
  lemma {:induction false} JoinCons(head: string, rest: seq<string>, sep: string)
    requires 1 <= |rest|
    ensures Join([head] + rest, sep) == head + sep + Join(rest, sep)
  {
    assert ([head] + rest)[1..] == rest;
  }

  /** A text is the part before an occurrence of `sep`, `sep`, and the part
      after it. */
  lemma {:induction false} CutAt(s: string, sep: string, i: nat)
    requires OccursAt(s, sep, i)
    ensures s == s[..i] + sep + s[i + |sep|..]
  {
    assert s == s[..i] + s[i..i + |sep|] + s[i + |sep|..];
  }

  /** A piece without `sep` put in front keeps every piece before the last
      free of `sep`, and the last piece stays the same. */
  lemma {:induction false} PiecesBeforeLast(head: string, rest: seq<string>, sep: string, lastFree: bool)
    requires |sep| > 0 && 1 <= |rest| && FindFirst(head, sep).None?
    requires SepFree(rest[..|rest| - 1], sep)
    requires lastFree ==> FindFirst(rest[|rest| - 1], sep).None?
    ensures SepFree(([head] + rest)[..|rest|], sep)
    ensures lastFree ==> FindFirst(([head] + rest)[|rest|], sep).None?
  {
    assert ([head] + rest)[..|rest|] == [head] + rest[..|rest| - 1];
    SepFreeCons(head, rest[..|rest| - 1], sep);
    assert ([head] + rest)[|rest|] == rest[|rest| - 1];
  }

  /** A piece without `sep` in front of pieces without it. */
  lemma {:induction false} SepFreeCons(head: string, tail: seq<string>, sep: string)
    requires |sep| > 0 && FindFirst(head, sep).None? && SepFree(tail, sep)
    ensures SepFree([head] + tail, sep)
  {
    assert ([head] + tail)[1..] == tail;
  }

  /** Each cut between neighbouring pieces is at the leftmost occurrence of
      `sep` in the text from that piece on. */
  predicate LeftmostCuts(pieces: seq<string>, sep: string)
    requires |sep| > 0
    decreases |pieces|
  {
    |pieces| <= 1 || (FindFirst(Join(pieces, sep), sep) == Some(|pieces[0]|) && LeftmostCuts(pieces[1..], sep))
  }

  /** A piece cut at the leftmost occurrence, in front of pieces cut at
      leftmost occurrences. */
  lemma {:induction false} LeftmostCons(head: string, rest: seq<string>, sep: string)
    requires |sep| > 0 && 1 <= |rest|
    requires FindFirst(Join([head] + rest, sep), sep) == Some(|head|)
    requires LeftmostCuts(rest, sep)
    ensures LeftmostCuts([head] + rest, sep)
  {
    var parts := [head] + rest;
    assert parts[0] == head && parts[1..] == rest;
  }

  /** Every cut `Split` makes is at the leftmost occurrence of `sep` in the
      text from there on; in particular the first piece ends at the first
      occurrence in `s`. */
  lemma {:induction false} SplitLeftmost(s: string, sep: string, maxsplit: Option<nat>)
    requires |sep| > 0
    ensures LeftmostCuts(Split(s, sep, maxsplit), sep)
    ensures |Split(s, sep, maxsplit)| > 1 ==> FindFirst(s, sep) == Some(|Split(s, sep, maxsplit)[0]|)
    decreases |s|
  {
    var r := Split(s, sep, maxsplit);
    if |r| > 1 {
      assert maxsplit != Some(0);
      var i := FindFirst(s, sep).value;
      SplitCut(s, sep, maxsplit, i);
      var rest := Split(s[i + |sep|..], sep, Decrement(maxsplit));
      SplitLeftmost(s[i + |sep|..], sep, Decrement(maxsplit));
      assert r == [s[..i]] + rest;
      LeftmostCons(s[..i], rest, sep);
    }
  }

  /** While the split limit is not used up, the last piece holds no `sep`
      either: every occurrence up to the limit is a cut. */
  lemma {:induction false} SplitLastPiece(s: string, sep: string, maxsplit: Option<nat>)
    requires |sep| > 0
    ensures var r := Split(s, sep, maxsplit);
      maxsplit.None? || |r| <= maxsplit.value ==> FindFirst(r[|r| - 1], sep).None?
    decreases |s|
  {
    var r := Split(s, sep, maxsplit);
    if maxsplit != Some(0) && FindFirst(s, sep).Some? {
      var i := FindFirst(s, sep).value;
      var rest := Split(s[i + |sep|..], sep, Decrement(maxsplit));
      assert r == [s[..i]] + rest by {
        SplitCut(s, sep, maxsplit, i);
      }
      SplitLastPiece(s[i + |sep|..], sep, Decrement(maxsplit));
      assert r[|r| - 1] == rest[|rest| - 1];
    }
  }

  /** Whatever pieces join back to `s`, respect the split limit, leave no
      separator in the last piece while cuts remain and cut at leftmost
      occurrences are exactly the pieces `Split` returns. */
  lemma {:induction false} SplitDetermined(s: string, sep: string, maxsplit: Option<nat>, r: seq<string>)
    requires |sep| > 0 && 1 <= |r|
    requires maxsplit.Some? ==> |r| <= maxsplit.value + 1
    requires Join(r, sep) == s
    requires maxsplit.None? || |r| <= maxsplit.value ==> FindFirst(r[|r| - 1], sep).None?
    requires LeftmostCuts(r, sep)
    ensures r == Split(s, sep, maxsplit)
    decreases |r|
  {
    if |r| > 1 {
      var i := |r[0]|;
      var tail := Join(r[1..], sep);
      PeelPieces(s, sep, maxsplit, r);
      SplitDetermined(tail, sep, Decrement(maxsplit), r[1..]);
      SplitCut(s, sep, maxsplit, i);
      assert r == [r[0]] + r[1..];
    }
  }

  /** Pieces with the properties of `SplitDetermined`, more than one: the
      first ends at the leftmost occurrence, and the others have the same
      properties for the text after it with one cut fewer. */
  lemma {:induction false} PeelPieces(s: string, sep: string, maxsplit: Option<nat>, r: seq<string>)
    requires |sep| > 0 && 1 < |r|
    requires maxsplit.Some? ==> |r| <= maxsplit.value + 1
    requires Join(r, sep) == s
    requires maxsplit.None? || |r| <= maxsplit.value ==> FindFirst(r[|r| - 1], sep).None?
    requires LeftmostCuts(r, sep)
    ensures FindFirst(s, sep) == Some(|r[0]|) && maxsplit != Some(0)
    ensures s[..|r[0]|] == r[0] && s[|r[0]| + |sep|..] == Join(r[1..], sep)
    ensures Decrement(maxsplit).Some? ==> |r[1..]| <= Decrement(maxsplit).value + 1
    ensures Decrement(maxsplit).None? || |r[1..]| <= Decrement(maxsplit).value ==> FindFirst(r[1..][|r[1..]| - 1], sep).None?
    ensures LeftmostCuts(r[1..], sep)
  {
    assert s == r[0] + sep + Join(r[1..], sep) by {
      assert r == [r[0]] + r[1..];
      JoinCons(r[0], r[1..], sep);
    }
    Around(r[0], sep, Join(r[1..], sep));
    assert r[1..][|r[1..]| - 1] == r[|r| - 1];
  }

  /** The text before the leftmost occurrence of `sep` does not contain it. */
  lemma {:induction false} PrefixBeforeFirstOccurrence(s: string, sep: string, i: nat)
    requires |sep| > 0 && FindFirst(s, sep) == Some(i)
    ensures FindFirst(s[..i], sep).None?
  {
    FindFirstMeaning(s, sep);
    forall j | 0 <= j <= i
      ensures !OccursAt(s[..i], sep, j)
    {
      if OccursAt(s[..i], sep, j) {
        assert s[..i][j..j + |sep|] == s[j..j + |sep|];
        assert OccursAt(s, sep, j);
      }
    }
  }

  /** With a one-character separator, occurrences are just positions of
      that character. */
  lemma OccursAtChar(s: string, c: char, j: nat)
    ensures OccursAt(s, [c], j) <==> j < |s| && s[j] == c
  {
    if j < |s| && s[j] == c {
      assert s[j..j + 1] == [c];
    }
  }

  /** A string without `c` has no occurrence of `[c]`. */
  lemma FindCharAbsent(s: string, c: char)
    requires c !in s
    ensures FindFirst(s, [c]).None?
  {
    if FindFirst(s, [c]).Some? {
      OccursAtChar(s, c, FindFirst(s, [c]).value);
    }
  }

  /** The leftmost `c` of `a + [c] + b` is right after `a` when `a` has none. */
  lemma FindCharAfter(a: string, c: char, b: string)
    requires c !in a
    ensures FindFirst(a + [c] + b, [c]) == Some(|a|)
  {
    var s := a + [c] + b;
    OccursAtChar(s, c, |a|);
    FindFirstMeaning(s, [c]);
    var k := FindFirst(s, [c]).value;
    OccursAtChar(s, c, k);
  }

  /** Splitting on a one-character separator undoes `Join` when no part
      contains the separator and the split limit admits every cut. */
  lemma {:induction false} SplitJoinChar(parts: seq<string>, c: char, maxsplit: Option<nat>)
    requires 1 <= |parts|
    requires forall k :: 0 <= k < |parts| ==> c !in parts[k]
    requires maxsplit.Some? ==> |parts| <= maxsplit.value + 1
    ensures Split(Join(parts, [c]), [c], maxsplit) == parts
    decreases |parts|
  {
    if |parts| == 1 {
      FindCharAbsent(parts[0], c);
      SplitWhole(parts[0], [c], maxsplit);
    } else {
      var s := Join(parts, [c]);
      var tail := Join(parts[1..], [c]);
      assert s == parts[0] + [c] + tail;
      FindCharAfter(parts[0], c, tail);
      Around(parts[0], [c], tail);
      SplitCut(s, [c], maxsplit, |parts[0]|);
      SplitJoinChar(parts[1..], c, Decrement(maxsplit));
      assert parts == [parts[0]] + parts[1..];
    }
  }

  /** The text on either side of `m` in `a + m + b`. */
  lemma Around(a: string, m: string, b: string)
    ensures (a + m + b)[..|a|] == a && (a + m + b)[|a| + |m|..] == b
  {
    var s := a + m + b;
    assert s[..|a|] == a;
    assert s[|a| + |m|..] == b;
  }

  /** `Split` leaves the text whole when it holds no separator or no cut is
      allowed. */
  lemma SplitWhole(s: string, sep: string, maxsplit: Option<nat>)
    requires |sep| > 0 && (FindFirst(s, sep).None? || maxsplit == Some(0))
    ensures Split(s, sep, maxsplit) == [s]
  {
  }

  /** One cut of `Split` when a separator is found and cuts remain. */
  lemma {:induction false} SplitCut(s: string, sep: string, maxsplit: Option<nat>, i: nat)
    requires |sep| > 0 && FindFirst(s, sep) == Some(i) && maxsplit != Some(0)
    ensures i + |sep| <= |s|
    ensures Split(s, sep, maxsplit) == [s[..i]] + Split(s[i + |sep|..], sep, Decrement(maxsplit))
  {
  }

  /** The characters Python 2's `str.strip()` removes. */
  predicate IsSpace(ch: char) {
    ch == ' ' || ch == '\t' || ch == '\n' || ch == '\r' || ch == '\U{0B}' || ch == '\U{0C}'
  }

  /** The first position at or after `i` that does not hold whitespace,
      or `|s|` if there is none. */
  function SkipSpaces(s: string, i: nat): (n: nat)
    requires i <= |s|
    ensures i <= n <= |s|
    ensures forall k :: i <= k < n ==> IsSpace(s[k])
    ensures n < |s| ==> !IsSpace(s[n])
    decreases |s| - i
  {
    if i < |s| && IsSpace(s[i]) then SkipSpaces(s, i + 1) else i
  }

  /** The end of `s[lo..j]` once its trailing whitespace is gone. */
  function TrimEnd(s: string, lo: nat, j: nat): (m: nat)
    requires lo <= j <= |s|
    ensures lo <= m <= j
    ensures forall k :: m <= k < j ==> IsSpace(s[k])
    ensures m > lo ==> !IsSpace(s[m - 1])
    decreases j
  {
    if j > lo && IsSpace(s[j - 1]) then TrimEnd(s, lo, j - 1) else j
  }

  /** Python's `str.strip()`: the slice of `s` left once the whitespace at
      both ends is gone. */
  function Strip(s: string): (r: string)
    ensures exists i, j :: Trimmed(s, i, j) && r == s[i..j]
    ensures |r| > 0 ==> !IsSpace(r[0]) && !IsSpace(r[|r| - 1])
  {
    var i := SkipSpaces(s, 0);
    var j := TrimEnd(s, i, |s|);
    assert Trimmed(s, i, j);
    s[i..j]
  }

  /** Everything of `s` before `i` and from `j` on is whitespace. */
  predicate Trimmed(s: string, i: int, j: int) {
    && 0 <= i <= j <= |s|
    && (forall k :: 0 <= k < i ==> IsSpace(s[k]))
    && (forall k :: j <= k < |s| ==> IsSpace(s[k]))
  }

  /** A string that neither starts nor ends with whitespace is left as it
      is by `Strip`. */
  lemma StripUnchanged(s: string)
    requires |s| > 0 && !IsSpace(s[0]) && !IsSpace(s[|s| - 1])
    ensures Strip(s) == s
  {
    assert SkipSpaces(s, 0) == 0;
    assert TrimEnd(s, 0, |s|) == |s|;
    assert s[0..|s|] == s;
  }

  /** Python's `s.replace(c, "")`: every `c` deleted, the rest kept in order. */
  function Delete(s: string, c: char): (r: string)
    ensures c !in r
    ensures forall x :: x in r <==> x in s && x != c
    ensures |r| <= |s|
    ensures c !in s ==> r == s
    ensures |s| == 1 ==> r == (if s[0] == c then "" else s)
  {
    DeleteScanFacts(s, c);
    DeleteScan(s, c)
  }

  /** The character-by-character scan behind `Delete`. */
  function DeleteScan(s: string, c: char): string
  {
    if |s| == 0 then "" else (if s[0] == c then "" else [s[0]]) + DeleteScan(s[1..], c)
  }

  /** What the scan keeps, proved once for `Delete`'s contract. */
  lemma {:induction false} DeleteScanFacts(s: string, c: char)
    ensures var r := DeleteScan(s, c);
      && (forall x :: x in r <==> x in s && x != c)
      && |r| <= |s|
      && (c !in s ==> r == s)
      && (|s| == 1 ==> r == (if s[0] == c then "" else s))
  {
    if |s| > 0 {
      DeleteScanFacts(s[1..], c);
      assert s == [s[0]] + s[1..];
    }
  }

  /** The scan over a character followed by more text. */
  lemma DeleteScanCons(x: char, rest: string, c: char)
    ensures DeleteScan([x] + rest, c) == (if x == c then "" else [x]) + DeleteScan(rest, c)
  {
    assert ([x] + rest)[0] == x && ([x] + rest)[1..] == rest;
  }

  /** The scan distributes over concatenation. */
  lemma {:induction false} DeleteScanAppend(a: string, b: string, c: char)
    ensures DeleteScan(a + b, c) == DeleteScan(a, c) + DeleteScan(b, c)
  {
    if |a| > 0 {
      var x, tail := a[0], a[1..];
      var head := if x == c then "" else [x];
      assert a == [x] + tail;
      assert a + b == [x] + (tail + b);
      DeleteScanCons(x, tail + b, c);
      DeleteScanCons(x, tail, c);
      DeleteScanAppend(tail, b, c);
      assert head + (DeleteScan(tail, c) + DeleteScan(b, c)) == (head + DeleteScan(tail, c)) + DeleteScan(b, c);
    } else {
      assert a + b == b;
    }
  }

  /** Deleting characters distributes over concatenation. */
  lemma DeleteAppend(a: string, b: string, c: char)
    ensures Delete(a + b, c) == Delete(a, c) + Delete(b, c)
  {
    DeleteScanAppend(a, b, c);
  }

  /** Deleting removes exactly the copies of `c`: the result is shorter by
      their number. */
  lemma {:induction false} DeleteCount(s: string, c: char)
    ensures |Delete(s, c)| == |s| - Count(s, c)
  {
    if |s| > 0 {
      assert Delete(s, c) == (if s[0] == c then "" else [s[0]]) + Delete(s[1..], c);
      DeleteCount(s[1..], c);
    }
  }
}
