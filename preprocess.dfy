/** The three ordered substitutions that `preprocess` applies to the raw
    markdown before it is parsed. Each global (`/g`) replace is a scan over
    the text: where the pattern matches at the current position the match is
    rewritten and the scan resumes after it, otherwise one character is
    copied. A JavaScript match at a position depends only on the text from
    there on (none of the patterns looks behind or anchors), so each scan
    recurses on the suffix. */
module Preprocessor {
  import opened Wrappers
  import opened JsRegex

  // ------------------------------------------------ empty headers
  // emptyHeaderRegex = /(#+\s*[^/\n]*\s+)(#+|Tomorrow)/gm

  /** `[^/\n]` */
  predicate IsHeaderText(c: char) { c != '/' && c != '\n' }

  /** Length of group 2, `#+|Tomorrow`, at the start of s; 0 when neither
      alternative matches. */
  function MarkLen(s: string): (g: nat)
    ensures g <= |s|
    ensures g > 0 ==> s[0] == '#' || s[0] == 'T'
    ensures g > 0 && s[0] == '#' ==> All(s[..g], IsHash) && (g < |s| ==> s[g] != '#')
    ensures g > 0 && s[0] != '#' ==> s[..g] == "Tomorrow"
  {
    if |s| > 0 && s[0] == '#' then Run(s, IsHash)
    else if |s| >= 8 && s[..8] == "Tomorrow" then 8
    else 0
  }

  /** Group 2 matches at the start of s exactly when s opens with '#' or
      with `Tomorrow`. */
  lemma MarkLenMatches(s: string)
    ensures MarkLen(s) > 0 <==> (|s| > 0 && s[0] == '#') || (|s| >= 8 && s[..8] == "Tomorrow")
  {
  }

  /** One way for the pattern to match at the start of s: `#+` is s[..a],
      `\s*` is s[a..i], `[^/\n]*` is s[i..j], `\s+` is s[j..q] and group 2
      starts at q. */
  predicate IsHeaderSplit(s: string, a: nat, i: nat, j: nat, q: nat) {
    && 1 <= a <= i <= j < q <= |s|
    && All(s[..a], IsHash) && All(s[a..i], IsSpace) && All(s[i..j], IsHeaderText)
    && All(s[j..q], IsSpace) && MarkLen(s[q..]) > 0
  }

  /** (a, i, j, q) is tried no earlier than (a', i', j', q') in the order in which
      the backtracking matcher tries the greedy quantifiers: longest first,
      leftmost quantifier most significant. */
  predicate TriedNoEarlier(a: nat, i: nat, j: nat, q: nat, a': nat, i': nat, j': nat, q': nat) {
    a < a' || (a == a' && (i < i' || (i == i' && (j < j' || (j == j' && q <= q')))))
  }

  /** End of the longest `[^/\n]*` that starts at i. */
  function TextEnd(s: string, i: nat): (e: nat)
    requires i <= |s|
    ensures i <= e <= |s|
  {
    i + Run(s[i..], IsHeaderText)
  }

  /** End of the longest `\s*` that starts at i. */
  function SpaceEnd(s: string, i: nat): (e: nat)
    requires i <= |s|
    ensures i <= e <= |s|
  {
    i + Run(s[i..], IsSpace)
  }

  /** When `[^/\n]*` ends at j, the greedy `\s+` after it is followed by
      group 2. Shorter `\s+` would leave a space where `#` or `T` is needed. */
  predicate GapEnd(s: string, j: nat)
    requires j <= |s|
  {
    SpaceEnd(s, j) > j && MarkLen(s[SpaceEnd(s, j)..]) > 0
  }

  /** The ends of `[^/\n]*` after which group 2 can follow. */
  function GapEnds(s: string): nat -> bool {
    (j: nat) => j <= |s| && GapEnd(s, j)
  }

  /** Backtracking over `[^/\n]*` started at i: the last j in lo..hi at which
      GapEnd holds. */
  function LastGapEnd(s: string, lo: nat, hi: nat): (r: Option<nat>)
    requires lo <= hi <= |s|
    ensures r.Some? ==> lo <= r.value <= hi && GapEnd(s, r.value)
  {
    LastWhere(GapEnds(s), lo, hi)
  }

  /** LastGapEnd finds the last such j, and finds none only when there is
      none. */
  lemma LastGapEndIsLast(s: string, lo: nat, hi: nat)
    requires lo <= hi <= |s|
    ensures LastGapEnd(s, lo, hi).Some? ==> forall k :: LastGapEnd(s, lo, hi).value < k <= hi ==> !GapEnd(s, k)
    ensures LastGapEnd(s, lo, hi).None? ==> forall k :: lo <= k <= hi ==> !GapEnd(s, k)
  {
    LastWhereIsLast(GapEnds(s), lo, hi);
    var p := GapEnds(s);
    assert forall k: nat :: k <= |s| ==> (p(k) <==> GapEnd(s, k));
  }

  /** The ends of `\s*` from which `[^/\n]*` can reach a gap. */
  function BodyStarts(s: string): nat -> bool {
    (i: nat) => i <= |s| && LastGapEnd(s, i, TextEnd(s, i)).Some?
  }

  /** Backtracking over `\s*`, from its end i down to a: the first (i, j)
      for which `[^/\n]*` from i can end at j. */
  function LastBody(s: string, a: nat, i: nat): (r: Option<(nat, nat)>)
    requires a <= i <= |s|
    ensures r.Some? ==> a <= r.value.0 <= i && r.value.0 <= r.value.1 <= TextEnd(s, r.value.0)
    ensures r.Some? ==> GapEnd(s, r.value.1)
  {
    match LastWhere(BodyStarts(s), a, i)
    case Some(i') => Some((i', LastGapEnd(s, i', TextEnd(s, i')).value))
    case None => None
  }

  /** LastBody returns the first pair in the backtracking order, and none
      only when no pair exists. */
  lemma LastBodyIsLast(s: string, a: nat, i: nat)
    requires a <= i <= |s|
    ensures LastBody(s, a, i).Some? ==>
      var r := LastBody(s, a, i).value;
      && (forall k :: r.1 < k <= TextEnd(s, r.0) ==> !GapEnd(s, k))
      && (forall i', k :: r.0 < i' <= i && i' <= k <= TextEnd(s, i') ==> !GapEnd(s, k))
    ensures LastBody(s, a, i).None? ==> forall i', k :: a <= i' <= i && i' <= k <= TextEnd(s, i') ==> !GapEnd(s, k)
  {
    var p := BodyStarts(s);
    LastWhereIsLast(p, a, i);
    var w := LastWhere(p, a, i);
    var lo := if w.Some? then w.value + 1 else a;
    forall i', k | lo <= i' <= i && i' <= k <= TextEnd(s, i') ensures !GapEnd(s, k) {
      assert !p(i');
      LastGapEndIsLast(s, i', TextEnd(s, i'));
    }
    if w.Some? {
      LastGapEndIsLast(s, w.value, TextEnd(s, w.value));
    }
  }

  /** Positions, relative to the start of the match, of a match of
      emptyHeaderRegex: group 1 is [0, markStart), group 2 is
      [markStart, end). */
  datatype HeaderMatch = HeaderMatch(hashes: nat, bodyStart: nat, gapStart: nat, markStart: nat, end: nat)

  /** The match of emptyHeaderRegex at the start of s, if any. `#+` takes
      every leading '#': a shorter run only leaves '#' characters for
      `[^/\n]*` to take and never makes a match possible. */
  function EmptyHeaderAt(s: string): (r: Option<HeaderMatch>)
    ensures r.Some? ==> IsHeaderSplit(s, r.value.hashes, r.value.bodyStart, r.value.gapStart, r.value.markStart)
    ensures r.Some? ==> r.value.end == r.value.markStart + MarkLen(s[r.value.markStart..])
    ensures r.Some? ==> && r.value.hashes == Run(s, IsHash)
                        && LastBody(s, r.value.hashes, SpaceEnd(s, r.value.hashes)) == Some((r.value.bodyStart, r.value.gapStart))
                        && r.value.markStart == SpaceEnd(s, r.value.gapStart)
    ensures r.None? ==> Run(s, IsHash) == 0 || LastBody(s, Run(s, IsHash), SpaceEnd(s, Run(s, IsHash))).None?
  {
    var a := Run(s, IsHash);
    if a == 0 then None
    else
      var body := LastBody(s, a, SpaceEnd(s, a));
      if body.None? then None
      else
        var i := body.value.0;
        var j := body.value.1;
        var q := SpaceEnd(s, j);
        RunCovers(s, IsSpace, a, i);
        RunCovers(s, IsHeaderText, i, j);
        RunCovers(s, IsSpace, j, q);
        Some(HeaderMatch(a, i, j, q, q + MarkLen(s[q..])))
  }

  /** After `[^/\n]*` ends at j, the only `\s+` that group 2 can follow is
      the greedy one. */
  lemma GapIsGreedy(s: string, j: nat, q: nat)
    requires j < q <= |s| && All(s[j..q], IsSpace) && MarkLen(s[q..]) > 0
    ensures q == SpaceEnd(s, j) && GapEnd(s, j)
  {
    RunIsLongest(s, IsSpace, j, q);
  }

  /** Every way of matching lies within the ranges that EmptyHeaderAt
      searches. */
  lemma HeaderSplitIsSearched(s: string, a: nat, i: nat, j: nat, q: nat)
    requires IsHeaderSplit(s, a, i, j, q)
    ensures i <= a + Run(s[a..], IsSpace) && j <= TextEnd(s, i)
    ensures q == SpaceEnd(s, j) && GapEnd(s, j)
  {
    RunIsLongest(s, IsSpace, a, i);
    RunIsLongest(s, IsHeaderText, i, j);
    GapIsGreedy(s, j, q);
  }

  /** A match in which `#+` gave back some '#' also exists with all of them
      taken: the '#' given back can only go to `[^/\n]*`. */
  lemma HeaderSplitAllHashes(s: string, a: nat, i: nat, j: nat, q: nat)
    requires IsHeaderSplit(s, a, i, j, q) && a < Run(s, IsHash)
    ensures IsHeaderSplit(s, Run(s, IsHash), Run(s, IsHash), j, q)
  {
    var h := Run(s, IsHash);
    GaveBackHashes(s, a, i, j, q);
    assert All(s[h..j], IsHeaderText) by {
      assert forall k :: h <= k < j ==> s[h..j][k - h] == s[k] == s[i..j][k - i];
    }
  }

  /** When `#+` gives back a '#', `\s*` is empty and `[^/\n]*` takes every
      '#' given back. */
  lemma GaveBackHashes(s: string, a: nat, i: nat, j: nat, q: nat)
    requires IsHeaderSplit(s, a, i, j, q) && a < Run(s, IsHash)
    ensures i == a && Run(s, IsHash) <= j
  {
    var h := Run(s, IsHash);
    assert s[a] == s[..h][a] && IsHash(s[a]);
    assert s[a..][0] == s[a];
    RunIsLongest(s, IsSpace, a, i);
    assert s[j] == s[j..q][0] && IsSpace(s[j]);
    assert forall k :: 0 <= k < h ==> s[k] == s[..h][k];
  }

  /** A way of matching with every leading '#' in `#+` is found, or is tried
      after the one found. */
  lemma HeaderSplitSearched(s: string, i: nat, j: nat, q: nat)
    requires IsHeaderSplit(s, Run(s, IsHash), i, j, q)
    ensures EmptyHeaderAt(s).Some?
    ensures var m := EmptyHeaderAt(s).value;
      TriedNoEarlier(Run(s, IsHash), i, j, q, m.hashes, m.bodyStart, m.gapStart, m.markStart)
  {
    var a := Run(s, IsHash);
    HeaderSplitIsSearched(s, a, i, j, q);
    LastBodyIsLast(s, a, SpaceEnd(s, a));
    var r := LastBody(s, a, SpaceEnd(s, a));
    assert r.Some?;
  }

  /** EmptyHeaderAt finds exactly the match the JavaScript engine reports:
      a match exists iff it returns one, and what it returns is tried first
      in the backtracking order of the greedy quantifiers. */
  lemma EmptyHeaderAtIsFirstMatch(s: string)
    ensures EmptyHeaderAt(s).Some? ==>
      var m := EmptyHeaderAt(s).value;
      forall a: nat, i: nat, j: nat, q: nat :: IsHeaderSplit(s, a, i, j, q) ==>
        TriedNoEarlier(a, i, j, q, m.hashes, m.bodyStart, m.gapStart, m.markStart)
    ensures EmptyHeaderAt(s).None? ==> forall a: nat, i: nat, j: nat, q: nat :: !IsHeaderSplit(s, a, i, j, q)
  {
    var h := Run(s, IsHash);
    forall a: nat, i: nat, j: nat, q: nat | IsHeaderSplit(s, a, i, j, q)
      ensures EmptyHeaderAt(s).Some?
      ensures var m := EmptyHeaderAt(s).value;
        TriedNoEarlier(a, i, j, q, m.hashes, m.bodyStart, m.gapStart, m.markStart)
    {
      RunIsLongest(s, IsHash, 0, a);
      assert s[0..a] == s[..a];
      if a < h {
        HeaderSplitAllHashes(s, a, i, j, q);
        HeaderSplitSearched(s, h, j, q);
      } else {
        HeaderSplitSearched(s, i, j, q);
      }
    }
  }

  /** `src.replace(emptyHeaderRegex, (match, header, rest) => rest)`. */
  function RemoveEmptyHeaders(s: string): (r: string)
    ensures |r| <= |s|
    decreases |s|
  {
    if s == [] then []
    else
      match EmptyHeaderAt(s)
      case Some(m) => s[m.markStart..m.end] + RemoveEmptyHeaders(s[m.end..])
      case None => [s[0]] + RemoveEmptyHeaders(s[1..])
  }

  /** Removing empty headers only deletes characters: the result is a
      subsequence of the input. */
  lemma {:induction false} RemoveEmptyHeadersDeletes(s: string)
    ensures Subsequence(RemoveEmptyHeaders(s), s)
    decreases |s|
  {
    if s != [] {
      match EmptyHeaderAt(s)
      case Some(m) =>
        RemoveEmptyHeadersDeletes(s[m.end..]);
        SubsequenceSkip(s, m.markStart, m.end, RemoveEmptyHeaders(s[m.end..]));
      case None =>
        RemoveEmptyHeadersDeletes(s[1..]);
        SubsequenceSkip(s, 0, 1, RemoveEmptyHeaders(s[1..]));
        assert s[0..1] == [s[0]];
    }
  }

  /** Text without '#' holds no header and passes unchanged. */
  lemma {:induction false} RemoveEmptyHeadersNoHash(s: string)
    requires '#' !in s
    ensures RemoveEmptyHeaders(s) == s
    decreases |s|
  {
    if s != [] {
      assert EmptyHeaderAt(s).None?;
      RemoveEmptyHeadersNoHash(s[1..]);
    }
  }

  /** The match at the start of s when s opens with a header line, from 0
      to the newline at j, and the next header starts at q after nothing but
      whitespace (blank lines included): group 1 is the whole line with the
      whitespace after it, and group 2 takes the next header's '#'
      characters, so the scan resumes after them and that header cannot
      start a match of its own. */
  lemma EmptyHeaderAtLine(s: string, a: nat, j: nat, q: nat)
    requires 1 <= a && a + 1 < j < q < |s| && All(s[..a], IsHash) && s[a] == ' '
    requires !IsSpace(s[a + 1]) && All(s[a + 1..j], IsHeaderText) && s[j] == '\n'
    requires All(s[j..q], IsSpace) && MarkLen(s[q..]) > 0
    ensures EmptyHeaderAt(s) == Some(HeaderMatch(a, a + 1, j, q, q + MarkLen(s[q..])))
  {
    HashRun(s, a);
    HeaderLineBody(s, a, j, q);
    GapIsGreedy(s, j, q);
    EmptyHeaderAtFound(s, a + 1, j);
    var m := EmptyHeaderAt(s).value;
    assert m.hashes == a && m.bodyStart == a + 1 && m.gapStart == j;
    assert m.markStart == q && m.end == q + MarkLen(s[q..]);
  }

  lemma HashRun(s: string, a: nat)
    requires a < |s| && All(s[..a], IsHash) && s[a] != '#'
    ensures Run(s, IsHash) == a
  {
    assert s[0..a] == s[..a] && s[0..] == s;
    RunExact(s, IsHash, 0, a);
  }

  /** What EmptyHeaderAt returns once the search has found its body. */
  lemma EmptyHeaderAtFound(s: string, i: nat, j: nat)
    requires 1 <= Run(s, IsHash) && LastBody(s, Run(s, IsHash), SpaceEnd(s, Run(s, IsHash))) == Some((i, j))
    ensures EmptyHeaderAt(s).Some?
    ensures var m := EmptyHeaderAt(s).value;
      && m.hashes == Run(s, IsHash) && m.bodyStart == i && m.gapStart == j
      && m.markStart == SpaceEnd(s, j) && m.end == SpaceEnd(s, j) + MarkLen(s[SpaceEnd(s, j)..])
  {
  }

  /** The search over `\s*` and `[^/\n]*` of such a line stops at once:
      the body is the title and the gap starts at the newline. */
  lemma HeaderLineBody(s: string, a: nat, j: nat, q: nat)
    requires 1 <= a && a + 1 < j < q < |s| && s[a] == ' '
    requires !IsSpace(s[a + 1]) && All(s[a + 1..j], IsHeaderText) && s[j] == '\n'
    requires All(s[j..q], IsSpace) && MarkLen(s[q..]) > 0
    ensures SpaceEnd(s, a) == a + 1 && LastBody(s, a, a + 1) == Some((a + 1, j))
  {
    assert s[a..a + 1] == [s[a]];
    RunExact(s, IsSpace, a, a + 1);
    RunExact(s, IsHeaderText, a + 1, j);
    assert TextEnd(s, a + 1) == j;
    assert LastGapEnd(s, a + 1, j) == Some(j) by {
      GapIsGreedy(s, j, q);
      assert GapEnds(s)(j);
    }
    assert BodyStarts(s)(a + 1);
    assert LastWhere(BodyStarts(s), a, a + 1) == Some(a + 1);
  }

  /** No match starts at a header whose text no later '#' or `T` follows. */
  lemma EmptyHeaderAtNeedsMark(s: string)
    requires forall k :: 1 <= k < |s| ==> s[k] != '#' && s[k] != 'T'
    ensures EmptyHeaderAt(s).None?
  {
    forall a: nat, i: nat, j: nat, q: nat ensures !IsHeaderSplit(s, a, i, j, q) {
      if 1 <= q < |s| {
        assert s[q..][0] == s[q];
      }
    }
  }

  /** A first character other than '#' starts no match and is copied. */
  lemma RemoveEmptyHeadersCopiesFirst(s: string)
    requires s != [] && s[0] != '#'
    ensures RemoveEmptyHeaders(s) == [s[0]] + RemoveEmptyHeaders(s[1..])
  {
    assert Run(s, IsHash) == 0;
  }

  /** A stretch without '#' is copied ahead of the scan of what follows it. */
  lemma {:induction false} RemoveEmptyHeadersCopies(a: string, b: string)
    requires '#' !in a
    ensures RemoveEmptyHeaders(a + b) == a + RemoveEmptyHeaders(b)
    decreases |a|
  {
    if a != [] {
      var s, t := a + b, a[1..];
      assert s[0] == a[0] && s[1..] == t + b;
      calc {
        RemoveEmptyHeaders(s);
        { RemoveEmptyHeadersCopiesFirst(s); }
        [a[0]] + RemoveEmptyHeaders(t + b);
        { RemoveEmptyHeadersCopies(t, b); }
        [a[0]] + (t + RemoveEmptyHeaders(b));
        ([a[0]] + t) + RemoveEmptyHeaders(b);
        { assert [a[0]] + t == a; }
        a + RemoveEmptyHeaders(b);
      }
    } else {
      assert a + b == b;
    }
  }

  /** Where a match starts, its group 2 is all that is kept of it, and the
      scan resumes after the match. */
  lemma RemoveEmptyHeadersAt(s: string, m: HeaderMatch)
    requires EmptyHeaderAt(s) == Some(m)
    ensures m.markStart <= m.end <= |s|
    ensures RemoveEmptyHeaders(s) == s[m.markStart..m.end] + RemoveEmptyHeaders(s[m.end..])
  {
  }

  /** Of three bodiless headers in a row only the first is removed: its
      match takes the second header's '#' as group 2, so the second header
      cannot start a match, and the third has no header after it. */
  lemma HeadersInARow()
    ensures RemoveEmptyHeaders("# A\n# B\n# C") == "# B\n# C"
  {
    calc {
      RemoveEmptyHeaders("# A\n# B\n# C");
      { assert "# A\n# B\n# C" == "# " + ['A'] + "\n#" + " B\n# C"; RemoveEmptyHeadersLine('A', " B\n# C"); }
      "#" + RemoveEmptyHeaders(" B\n# C");
      { assert " B\n# C" == " B\n" + "# C"; RemoveEmptyHeadersCopies(" B\n", "# C"); }
      "#" + (" B\n" + RemoveEmptyHeaders("# C"));
      { LastHeaderKept(); }
      "#" + (" B\n" + "# C");
      "# B\n# C";
    }
  }

  /** A bodiless header line `# x` right before a header that opens with a
      single '#' is dropped: that '#', group 2, is all that is kept of the
      match, and the scan resumes after it, inside the second header. */
  lemma RemoveEmptyHeadersLine(x: char, t: string)
    requires !IsSpace(x) && IsHeaderText(x) && t != [] && t[0] != '#'
    ensures RemoveEmptyHeaders("# " + [x] + "\n#" + t) == "#" + RemoveEmptyHeaders(t)
  {
    var s := "# " + [x] + "\n#" + t;
    assert s[4..5] == "#" && s[5..] == t;
    calc {
      RemoveEmptyHeaders(s);
      { HeaderLineMatch(x, t); RemoveEmptyHeadersAt(s, HeaderMatch(1, 2, 3, 4, 5)); }
      s[4..5] + RemoveEmptyHeaders(s[5..]);
      "#" + RemoveEmptyHeaders(t);
    }
  }

  /** The match of RemoveEmptyHeadersLine: group 1 is `# x` and its newline,
      group 2 the next header's '#'. */
  lemma HeaderLineMatch(x: char, t: string)
    requires !IsSpace(x) && IsHeaderText(x) && t != [] && t[0] != '#'
    ensures EmptyHeaderAt("# " + [x] + "\n#" + t) == Some(HeaderMatch(1, 2, 3, 4, 5))
  {
    var s := "# " + [x] + "\n#" + t;
    assert s[..1] == "#" && s[1] == ' ' && s[2] == x && s[3] == '\n';
    assert s[2..3] == [x];
    var u := s[4..];
    assert u == "#" + t && u[1] == t[0];
    assert u[..1] == "#";
    HashRun(u, 1);
    assert s[3..4] == "\n";
    EmptyHeaderAtLine(s, 1, 3, 4);
  }

  /** A bodiless header line `# x` that a blank line separates from a
      header opening with a single '#' is dropped together with the blank
      line, as in the usual layout of headers. */
  lemma RemoveEmptyHeadersBlankLine(x: char, t: string)
    requires !IsSpace(x) && IsHeaderText(x) && t != [] && t[0] != '#'
    ensures RemoveEmptyHeaders("# " + [x] + "\n\n#" + t) == "#" + RemoveEmptyHeaders(t)
  {
    var s := "# " + [x] + "\n\n#" + t;
    assert s[5..6] == "#" && s[6..] == t;
    calc {
      RemoveEmptyHeaders(s);
      { HeaderBlankLineMatch(x, t); RemoveEmptyHeadersAt(s, HeaderMatch(1, 2, 3, 5, 6)); }
      s[5..6] + RemoveEmptyHeaders(s[6..]);
      "#" + RemoveEmptyHeaders(t);
    }
  }

  /** The match of RemoveEmptyHeadersBlankLine: group 1 is `# x` and the
      two newlines, group 2 the next header's '#'. */
  lemma HeaderBlankLineMatch(x: char, t: string)
    requires !IsSpace(x) && IsHeaderText(x) && t != [] && t[0] != '#'
    ensures EmptyHeaderAt("# " + [x] + "\n\n#" + t) == Some(HeaderMatch(1, 2, 3, 5, 6))
  {
    var s := "# " + [x] + "\n\n#" + t;
    assert s[..1] == "#" && s[1] == ' ' && s[2] == x && s[3] == '\n';
    assert s[2..3] == [x] && s[3..5] == "\n\n";
    var u := s[5..];
    assert u == "#" + t && u[1] == t[0];
    assert u[..1] == "#";
    HashRun(u, 1);
    EmptyHeaderAtLine(s, 1, 3, 5);
  }

  /** Two headers a blank line apart, the first without a body: the first
      header line and the blank line go. */
  lemma HeadersBlankLineApart()
    ensures RemoveEmptyHeaders("# A\n\n# B\n") == "# B\n"
  {
    calc {
      RemoveEmptyHeaders("# A\n\n# B\n");
      { assert "# A\n\n# B\n" == "# " + ['A'] + "\n\n#" + " B\n"; RemoveEmptyHeadersBlankLine('A', " B\n"); }
      "#" + RemoveEmptyHeaders(" B\n");
      { RemoveEmptyHeadersNoHash(" B\n"); }
      "#" + " B\n";
      "# B\n";
    }
  }

  /** A header with no header after it stays. */
  lemma LastHeaderKept()
    ensures RemoveEmptyHeaders("# C") == "# C"
  {
    EmptyHeaderAtNeedsMark("# C");
    assert "# C"[1..] == " C";
    RemoveEmptyHeadersNoHash(" C");
  }

  // ------------------------------------------------ list spacing
  // singleListSpaceRegex = /(\*.*)\n{2}(\*)/gm

  /** The pattern matches at the start of s with group 1 = s[..n]. */
  predicate IsListGap(s: string, n: nat) {
    1 <= n && n + 3 <= |s| && s[0] == '*' && All(s[1..n], IsDot) && s[n..n + 3] == "\n\n*"
  }

  /** The match of singleListSpaceRegex at the start of s: the length of
      group 1. `.*` cannot give back a character and still be followed by a
      newline, so the greedy run is the only candidate. */
  function ListGapAt(s: string): (r: Option<nat>)
    ensures r.Some? ==> IsListGap(s, r.value)
    ensures forall n: nat :: IsListGap(s, n) ==> r == Some(n)
  {
    if s == [] || s[0] != '*' then None
    else
      var n := 1 + Run(s[1..], IsDot);
      forall m: nat | IsListGap(s, m) ensures m == n {
        assert s[m] == s[m..m + 3][0];
        RunExact(s, IsDot, 1, m);
      }
      RunCovers(s, IsDot, 1, n);
      if n + 3 <= |s| && s[n..n + 3] == "\n\n*" then Some(n) else None
  }

  /** `src.replace(singleListSpaceRegex, (m, before, after) => before + '\n\n\n' + after)`. */
  function WidenListGaps(s: string): string
    decreases |s|
  {
    if s == [] then []
    else
      match ListGapAt(s)
      case Some(n) => s[..n] + "\n\n\n*" + WidenListGaps(s[n + 3..])
      case None => [s[0]] + WidenListGaps(s[1..])
  }

  /** The number of matches the scan of WidenListGaps rewrites. */
  function ListGapCount(s: string): nat
    decreases |s|
  {
    if s == [] then 0
    else
      match ListGapAt(s)
      case Some(n) => 1 + ListGapCount(s[n + 3..])
      case None => ListGapCount(s[1..])
  }

  /** Widening makes the text longer by exactly the number of matches. */
  lemma {:induction false} WidenListGapsLength(s: string)
    ensures |WidenListGaps(s)| == |s| + ListGapCount(s)
    decreases |s|
  {
    if s != [] {
      match ListGapAt(s)
      case Some(n) => WidenListGapsLength(s[n + 3..]);
      case None => WidenListGapsLength(s[1..]);
    }
  }

  /** Widening only inserts characters: the input is a subsequence of the
      output. */
  lemma {:induction false} WidenListGapsInserts(s: string)
    ensures Subsequence(s, WidenListGaps(s))
    decreases |s|
  {
    if s != [] {
      match ListGapAt(s)
      case Some(n) =>
        var rest := s[n + 3..];
        WidenListGapsInserts(rest);
        assert s == s[..n] + "\n\n*" + rest by {
          assert s[n..n + 3] == "\n\n*";
          assert s == s[..n] + s[n..n + 3] + rest;
        }
        WidenedGapSubsequence(s[..n], rest, WidenListGaps(rest));
      case None =>
        WidenListGapsInserts(s[1..]);
        SubsequenceKeepFront([s[0]], s[1..], WidenListGaps(s[1..]));
        assert [s[0]] + s[1..] == s;
    }
  }

  /** Inserting the extra newline keeps a subsequence one. */
  lemma WidenedGapSubsequence(a: string, r: string, w: string)
    requires Subsequence(r, w)
    ensures Subsequence(a + "\n\n*" + r, a + "\n\n\n*" + w)
  {
    SubsequenceKeepFront("\n*", r, w);
    SubsequenceDropFront("\n*" + r, "\n", "\n*" + w);
    SubsequenceKeepFront(a + "\n", "\n*" + r, "\n" + ("\n*" + w));
    assert a + "\n" + ("\n*" + r) == a + "\n\n*" + r;
    assert a + "\n" + ("\n" + ("\n*" + w)) == a + "\n\n\n*" + w;
  }

  /** What widening inserts is newlines only. */
  lemma {:induction false} WidenListGapsOnlyNewlines(s: string)
    ensures Remove(WidenListGaps(s), '\n') == Remove(s, '\n')
    decreases |s|
  {
    if s != [] {
      match ListGapAt(s)
      case Some(n) =>
        WidenListGapsOnlyNewlines(s[n + 3..]);
        OnlyNewlinesAtGap(s, n);
      case None =>
        WidenListGapsOnlyNewlines(s[1..]);
        RemoveAppend([s[0]], s[1..], '\n');
        RemoveAppend([s[0]], WidenListGaps(s[1..]), '\n');
        assert [s[0]] + s[1..] == s;
    }
  }

  /** The step of WidenListGapsOnlyNewlines over a match. */
  lemma OnlyNewlinesAtGap(s: string, n: nat)
    requires ListGapAt(s) == Some(n)
    requires Remove(WidenListGaps(s[n + 3..]), '\n') == Remove(s[n + 3..], '\n')
    ensures Remove(WidenListGaps(s), '\n') == Remove(s, '\n')
  {
    var rest := s[n + 3..];
    var w := WidenListGaps(rest);
    assert WidenListGaps(s) == s[..n] + "\n\n\n*" + w;
    assert s == s[..n] + "\n\n*" + rest by {
      assert s[n..n + 3] == "\n\n*";
      assert s == s[..n] + s[n..n + 3] + rest;
    }
    assert Remove("\n\n*", '\n') == "*" == Remove("\n\n\n*", '\n');
    RemoveAround(s[..n], "\n\n*", rest, '\n');
    RemoveAround(s[..n], "\n\n\n*", w, '\n');
  }

  lemma RemoveAround(a: string, g: string, r: string, c: char)
    ensures Remove(a + g + r, c) == Remove(a, c) + Remove(g, c) + Remove(r, c)
  {
    RemoveAppend(a + g, r, c);
    RemoveAppend(a, g, c);
  }

  /** No "\n\n*" anywhere in s. */
  predicate ListGapFree(s: string) {
    forall i :: 0 <= i <= |s| ==> !OccursAt(s, "\n\n*", i)
  }

  /** Text in which no single blank line separates bullets is unchanged; in
      particular a gap of three or more newlines is not widened. */
  lemma {:induction false} WidenListGapsNoGap(s: string)
    requires ListGapFree(s)
    ensures WidenListGaps(s) == s
    decreases |s|
  {
    if s != [] {
      if ListGapAt(s).Some? {
        assert OccursAt(s, "\n\n*", ListGapAt(s).value);
      }
      assert ListGapFree(s[1..]) by {
        forall i | 0 <= i <= |s[1..]| ensures !OccursAt(s[1..], "\n\n*", i) {
          assert !OccursAt(s, "\n\n*", i + 1);
          if i + 3 <= |s[1..]| {
            assert s[1..][i..i + 3] == s[i + 1..i + 4];
          }
        }
      }
      WidenListGapsNoGap(s[1..]);
    }
  }

  /** A bullet line followed by exactly one blank line and another bullet
      gets a second blank line; the scan goes on after that bullet's '*'. */
  lemma WidenListGapsMatch(line: string, rest: string)
    requires All(line, IsDot)
    ensures WidenListGaps("*" + line + "\n\n*" + rest) == "*" + line + "\n\n\n*" + WidenListGaps(rest)
  {
    var s := "*" + line + "\n\n*" + rest;
    var n := |line| + 1;
    assert s[1..n] == line;
    assert s[n..n + 3] == "\n\n*";
    assert IsListGap(s, n);
    assert s[..n] == "*" + line;
    assert s[n + 3..] == rest;
  }

  /** A line that ends at a line terminator not opening "\n\n*", or at the
      end of the text, starts no match. */
  lemma NoListGapInLine(line: string, rest: string)
    requires line != [] && All(line, IsDot)
    requires rest == [] || IsLineTerminator(rest[0])
    requires !OccursAt(rest, "\n\n*", 0)
    ensures ListGapAt(line + rest).None?
  {
    var s := line + rest;
    assert s[1..|line|] == line[1..];
    assert forall k :: 1 <= k < |line| ==> line[1..][k - 1] == line[k];
    if rest != [] {
      assert s[|line|] == rest[0];
    }
    RunExact(s, IsDot, 1, |line|);
    if |line| + 3 <= |s| {
      assert s[|line|..|line| + 3] == rest[0..3];
    }
  }

  /** A character other than '*' is copied. */
  lemma WidenListGapsCopiesChar(c: char, t: string)
    requires c != '*'
    ensures WidenListGaps([c] + t) == [c] + WidenListGaps(t)
  {
    assert ([c] + t)[1..] == t;
  }

  /** A character that starts no match is copied. */
  lemma WidenListGapsCopiesFirst(c: char, t: string)
    requires ListGapAt([c] + t).None?
    ensures WidenListGaps([c] + t) == [c] + WidenListGaps(t)
  {
    assert ([c] + t)[1..] == t;
  }

  /** The characters of a line that ends at a line terminator not opening
      "\n\n*", or at the end of the text, are copied. */
  lemma {:induction false} WidenListGapsCopiesLine(line: string, rest: string)
    requires All(line, IsDot)
    requires rest == [] || IsLineTerminator(rest[0])
    requires !OccursAt(rest, "\n\n*", 0)
    ensures WidenListGaps(line + rest) == line + WidenListGaps(rest)
    decreases |line|
  {
    if line == [] {
      assert line + rest == rest;
    } else {
      var t := line[1..];
      assert line + rest == [line[0]] + (t + rest);
      calc {
        WidenListGaps(line + rest);
        WidenListGaps([line[0]] + (t + rest));
        { NoListGapInLine(line, rest); WidenListGapsCopiesFirst(line[0], t + rest); }
        [line[0]] + WidenListGaps(t + rest);
        { AllTail(line, IsDot); WidenListGapsCopiesLine(t, rest); }
        [line[0]] + (t + WidenListGaps(rest));
        { assert [line[0]] + t == line; }
        line + WidenListGaps(rest);
      }
    }
  }

  /** Two blank lines between bullets already separate them and stay as
      they are. */
  lemma WidenListGapsKeepsWideGap(line: string, rest: string)
    requires All(line, IsDot)
    ensures WidenListGaps("*" + line + "\n\n\n" + rest) == "*" + line + "\n\n\n" + WidenListGaps(rest)
  {
    var bullet := "*" + line;
    var gap := "\n\n\n" + rest;
    assert WidenListGaps(bullet + gap) == bullet + WidenListGaps(gap) by {
      assert All(bullet, IsDot) by {
        assert forall k :: 1 <= k < |bullet| ==> bullet[k] == line[k - 1];
      }
      assert gap[2] == '\n';
      WidenListGapsCopiesLine(bullet, gap);
    }
    assert WidenListGaps(gap) == "\n\n\n" + WidenListGaps(rest) by {
      WidenListGapsCopiesStarFree("\n\n\n", rest);
    }
    assert "*" + line + "\n\n\n" + rest == bullet + gap;
  }

  /** Text without '*' starts no match and is copied. */
  lemma {:induction false} WidenListGapsCopiesStarFree(b: string, t: string)
    requires '*' !in b
    ensures WidenListGaps(b + t) == b + WidenListGaps(t)
    decreases |b|
  {
    if b != [] {
      assert b + t == [b[0]] + (b[1..] + t);
      WidenListGapsCopiesChar(b[0], b[1..] + t);
      WidenListGapsCopiesStarFree(b[1..], t);
    } else {
      assert b + t == t;
    }
  }

  /** As written, a match takes the next bullet's '*' as its group 2 and the
      scan resumes after it, so of two single blank lines in a row between
      bullets only the first is widened: the bullet after the first gap
      cannot start a match of its own. */
  lemma BulletsInARow(a: string, b: string, c: string)
    requires All(a, IsDot) && '*' !in b
    ensures WidenListGaps("*" + a + "\n\n*" + b + "\n\n*" + c)
            == "*" + a + "\n\n\n*" + b + "\n\n" + WidenListGaps("*" + c)
  {
    var b2 := b + "\n\n";
    var rest := b2 + ("*" + c);
    assert '*' !in b2;
    calc {
      WidenListGaps("*" + a + "\n\n*" + b + "\n\n*" + c);
      { BulletsInARowText(a, b, c); }
      WidenListGaps("*" + a + "\n\n*" + rest);
      { WidenListGapsMatch(a, rest); }
      "*" + a + "\n\n\n*" + WidenListGaps(rest);
      { WidenListGapsCopiesStarFree(b2, "*" + c); }
      "*" + a + "\n\n\n*" + (b2 + WidenListGaps("*" + c));
      "*" + a + "\n\n\n*" + b + "\n\n" + WidenListGaps("*" + c);
    }
  }

  /** The input of BulletsInARow regrouped around its first match. Kept
      apart from the scan so that the solver regroups plain strings only. */
  lemma BulletsInARowText(a: string, b: string, c: string)
    ensures "*" + a + "\n\n*" + b + "\n\n*" + c == "*" + a + "\n\n*" + ((b + "\n\n") + ("*" + c))
  {
  }

  // ------------------------------------------------ done items
  // doneItemRegex = /\*(.*?)\[(\d{4}-\d{2}-\d{2} \d{2}:\d{2})\]/g

  /** `\d{4}-\d{2}-\d{2} \d{2}:\d{2}` */
  predicate IsTimestamp(ts: string) {
    && |ts| == 16
    && ts[4] == '-' && ts[7] == '-' && ts[10] == ' ' && ts[13] == ':'
    && forall k :: 0 <= k < 16 && k != 4 && k != 7 && k != 10 && k != 13 ==> IsDigit(ts[k])
  }

  /** s starts with `\[` timestamp `\]`. */
  predicate IsStampAt(s: string) {
    |s| >= 18 && s[0] == '[' && IsTimestamp(s[1..17]) && s[17] == ']'
  }

  /** The pattern matches at the start of s with the item, group 1, being
      s[1..k] and the bracket starting at k. */
  predicate IsDoneItem(s: string, k: nat) {
    1 <= k <= |s| && s[0] == '*' && All(s[1..k], IsDot) && IsStampAt(s[k..])
  }

  /** The lazy `.*?`: the first bracket position from k on, without passing a
      line terminator. */
  function FirstStamp(s: string, k: nat): (r: Option<nat>)
    requires 1 <= k <= |s| && s[0] == '*' && All(s[1..k], IsDot)
    ensures r.Some? ==> k <= r.value && IsDoneItem(s, r.value)
    ensures r.Some? ==> forall k' :: k <= k' < r.value ==> !IsStampAt(s[k'..])
    ensures r.None? ==> forall k' :: k <= k' && IsDoneItem(s, k') ==> false
    decreases |s| - k
  {
    if IsStampAt(s[k..]) then Some(k)
    else if k == |s| || IsLineTerminator(s[k]) then
      assert forall k' :: k < k' <= |s| ==> s[1..k'][k - 1] == s[k];
      None
    else
      assert s[1..k + 1] == s[1..k] + [s[k]];
      FirstStamp(s, k + 1)
  }

  /** The match of doneItemRegex at the start of s: where the bracket of the
      shortest item starts. */
  function DoneItemAt(s: string): (r: Option<nat>)
    ensures r.Some? ==> IsDoneItem(s, r.value)
    ensures r.Some? ==> forall k :: 1 <= k < r.value ==> !IsDoneItem(s, k)
    ensures forall k :: IsDoneItem(s, k) ==> r.Some?
  {
    if s == [] || s[0] != '*' then None else FirstStamp(s, 1)
  }

  /** The markup around a done item's timestamp. */
  function TimestampSpan(timestamp: string): string {
    "<span class=\"timestamp\">" + timestamp + "<span/>"
  }

  /** The replacement for a done item. */
  function CheckedItem(item: string, timestamp: string): string {
    "* [x] " + item + TimestampSpan(timestamp)
  }

  /** `src.replace(doneItemRegex, (match, item, timestamp) => ...)`. */
  function MarkDoneItems(s: string): string
    decreases |s|
  {
    if s == [] then []
    else
      match DoneItemAt(s)
      case Some(k) => CheckedItem(s[1..k], s[k + 1..k + 17]) + MarkDoneItems(s[k + 18..])
      case None => [s[0]] + MarkDoneItems(s[1..])
  }

  /** No bracketed timestamp anywhere in s. */
  predicate StampFree(s: string) {
    forall i :: 0 <= i <= |s| ==> !IsStampAt(s[i..])
  }

  /** Text without a bracketed timestamp of the exact digit shape is
      unchanged. */
  lemma {:induction false} MarkDoneItemsStampFree(s: string)
    requires StampFree(s)
    ensures MarkDoneItems(s) == s
    decreases |s|
  {
    if s != [] {
      assert StampFree(s[1..]) by {
        forall i | 0 <= i <= |s[1..]| ensures !IsStampAt(s[1..][i..]) {
          assert s[1..][i..] == s[i + 1..];
        }
      }
      MarkDoneItemsStampFree(s[1..]);
    }
  }

  /** `*ITEM[YYYY-MM-DD HH:MM]` becomes exactly
      `* [x] ITEM<span class="timestamp">YYYY-MM-DD HH:MM<span/>`, with item
      and timestamp copied, when the item is one line without a '['. */
  lemma MarkDoneItemsRewrites(item: string, timestamp: string, rest: string)
    requires All(item, IsDot) && '[' !in item && IsTimestamp(timestamp)
    ensures MarkDoneItems("*" + item + "[" + timestamp + "]" + rest)
            == CheckedItem(item, timestamp) + MarkDoneItems(rest)
  {
    var s := "*" + item + "[" + timestamp + "]" + rest;
    var k := |item| + 1;
    assert s[1..k] == item;
    assert s[k..][1..17] == timestamp == s[k + 1..k + 17];
    assert IsDoneItem(s, k);
    forall k' | 1 <= k' < k ensures !IsDoneItem(s, k') {
      assert s[k'..][0] == item[k' - 1];
    }
    assert s[k + 18..] == rest;
  }

  // ------------------------------------------------ preprocess

  /** preprocess: the three substitutions in their order. */
  function Preprocess(src: string): string {
    MarkDoneItems(WidenListGaps(RemoveEmptyHeaders(src)))
  }

  /** Text holding none of the three conventions is left as it is. */
  lemma PreprocessPlain(src: string)
    requires '#' !in src && ListGapFree(src) && StampFree(src)
    ensures Preprocess(src) == src
  {
    RemoveEmptyHeadersNoHash(src);
    WidenListGapsNoGap(src);
    MarkDoneItemsStampFree(src);
  }
}
