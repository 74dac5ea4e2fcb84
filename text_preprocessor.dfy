/** `preprocessText` (backend/server.js): three regular-expression rewrites
    that normalise the extracted text, then `text.match(/.{1,300}(?=\s|$)/g)`
    to cut it into chunks, and the "empty after preprocessing" error. */
module TextPreprocessor {
  import opened Wrappers
  import opened JsString

  const MaxChunkSize: nat := 300

  datatype PreprocessError = EmptyAfterPreprocessing

  // ---------------------------------------------------------------------
  // The three rewrites
  // ---------------------------------------------------------------------

  /** The punctuation the second rewrite keeps: `. , ; : ( ) [ ] { } ' " -`. */
  const AllowedPunctuation: string := ".,;:()[]{}'\"-"

  /** Characters outside `[^\w\s.,;:()\[\]{}'"-]`. */
  predicate IsAllowed(c: char) {
    IsWordChar(c) || IsSpace(c) || c in AllowedPunctuation
  }

  /** No character is followed by a second plain space. */
  predicate NoDoubleSpace(s: string) {
    forall i :: 0 < i < |s| ==> s[i - 1] != ' ' || s[i] != ' '
  }

  /** `s.replace(/\s+/g, ' ')`: every maximal run of `\s` becomes one space. */
  function Collapse(s: string): (r: string)
    ensures s != [] && !IsSpace(s[0]) ==> r != [] && r[0] == s[0]
    ensures s != [] && IsSpace(s[0]) ==> r != [] && r[0] == ' '
    ensures s == [] ==> r == []
    decreases |s|
  {
    if s == [] then []
    else if IsSpace(s[0]) then
      var rest := TrimStart(s);
      assert rest == [] || rest[0] != s[0];
      [' '] + Collapse(rest)
    else [s[0]] + Collapse(s[1..])
  }

  /** Every character of a collapsed string is the one space of a run, or
      a non-`\s` character of the input. */
  lemma {:induction false} CollapseChars(s: string)
    ensures forall i :: 0 <= i < |Collapse(s)| ==>
      Collapse(s)[i] == ' ' || (!IsSpace(Collapse(s)[i]) && Collapse(s)[i] in s)
    decreases |s|
  {
    if s == [] {
    } else if IsSpace(s[0]) {
      var rest := TrimStart(s);
      CollapseChars(rest);
      CharsOfSuffix(s, |s| - |rest|, Collapse(s), [' '], Collapse(rest));
    } else {
      CollapseChars(s[1..]);
      CharsOfSuffix(s, 1, Collapse(s), [s[0]], Collapse(s[1..]));
    }
  }

  /** The step of `CollapseChars`: a head that is a space or a non-`\s`
      character of `s`, followed by the collapse of a suffix of `s`. */
  lemma CharsOfSuffix(s: string, k: nat, r: string, head: string, tail: string)
    requires k <= |s| && r == head + tail && |head| == 1
    requires head[0] == ' ' || (!IsSpace(head[0]) && head[0] in s)
    requires forall i :: 0 <= i < |tail| ==> tail[i] == ' ' || (!IsSpace(tail[i]) && tail[i] in s[k..])
    ensures forall i :: 0 <= i < |r| ==> r[i] == ' ' || (!IsSpace(r[i]) && r[i] in s)
  {
    forall i | 0 < i < |r| && r[i] != ' ' ensures r[i] in s {
      assert r[i] == tail[i - 1];
      var j :| 0 <= j < |s[k..]| && s[k..][j] == r[i];
      assert s[k + j] == r[i];
    }
  }

  /** A collapsed string never holds two spaces in a row. */
  lemma {:induction false} CollapseNoDoubleSpace(s: string)
    ensures NoDoubleSpace(Collapse(s))
    decreases |s|
  {
    if s != [] {
      var r := Collapse(s);
      var rest := if IsSpace(s[0]) then TrimStart(s) else s[1..];
      CollapseNoDoubleSpace(rest);
      assert r == [r[0]] + Collapse(rest);
      forall i | 0 < i < |r| ensures r[i - 1] != ' ' || r[i] != ' ' {
        if i > 1 { assert r[i - 1] == Collapse(rest)[i - 2] && r[i] == Collapse(rest)[i - 1]; }
      }
    }
  }

  /** The non-`\s` characters of a string, in order. */
  function Visible(s: string): string {
    if s == [] then [] else (if IsSpace(s[0]) then [] else [s[0]]) + Visible(s[1..])
  }

  lemma {:induction false} VisibleOfBlankPrefix(s: string, k: nat)
    requires k <= |s|
    requires forall i :: 0 <= i < k ==> IsSpace(s[i])
    ensures Visible(s) == Visible(s[k..])
    decreases k
  {
    if k > 0 {
      VisibleOfBlankPrefix(s[1..], k - 1);
      assert s[1..][k - 1..] == s[k..];
    }
  }

  /** Collapsing whitespace never adds, drops or reorders a visible character. */
  lemma {:induction false} CollapseKeepsVisible(s: string)
    ensures Visible(Collapse(s)) == Visible(s)
    decreases |s|
  {
    if s == [] {
    } else if IsSpace(s[0]) {
      var rest := TrimStart(s);
      CollapseKeepsVisible(rest);
      VisibleOfBlankPrefix(s, |s| - |rest|);
      assert ([' '] + Collapse(rest))[1..] == Collapse(rest);
    } else {
      CollapseKeepsVisible(s[1..]);
      assert ([s[0]] + Collapse(s[1..]))[1..] == Collapse(s[1..]);
    }
  }

  /** `s.replace(/[^\w\s.,;:()\[\]{}'"-]/g, ' ')`. */
  function ReplaceDisallowed(s: string): string {
    seq(|s|, i requires 0 <= i < |s| => if IsAllowed(s[i]) then s[i] else ' ')
  }

  /** The text after the three rewrites of `preprocessText`. */
  function Normalize(text: string): string {
    var collapsed := Trim(Collapse(text));
    var filtered := ReplaceDisallowed(collapsed);
    Collapse(filtered)
  }

  /** Normalised text: plain spaces, word characters and the allowed
      punctuation only, and never two spaces in a row. */
  predicate IsNormalized(t: string) {
    && (forall i :: 0 <= i < |t| ==> t[i] == ' ' || IsWordChar(t[i]) || t[i] in AllowedPunctuation)
    && NoDoubleSpace(t)
  }

  lemma NormalizeShape(text: string)
    ensures IsNormalized(Normalize(text))
  {
    var filtered := ReplaceDisallowed(Trim(Collapse(text)));
    var t := Normalize(text);
    CollapseChars(filtered);
    CollapseNoDoubleSpace(filtered);
    forall i | 0 <= i < |t|
      ensures t[i] == ' ' || IsWordChar(t[i]) || t[i] in AllowedPunctuation
    {
      if t[i] != ' ' {
        var j :| 0 <= j < |filtered| && filtered[j] == t[i];
      }
    }
  }

  lemma NormalizedHasNoLineTerminator(t: string)
    requires IsNormalized(t)
    ensures forall i :: 0 <= i < |t| ==> !IsLineTerminator(t[i])
  {
  }

  // ---------------------------------------------------------------------
  // The chunking regular expression `.{1,300}(?=\s|$)` with flag `g`
  // ---------------------------------------------------------------------

  /** The lookahead `(?=\s|$)` succeeds at position `e`. */
  predicate Boundary(t: string, e: nat)
    requires e <= |t|
  {
    e == |t| || IsSpace(t[e])
  }

  /** How many characters the greedy `.{1,cap}` takes from `p` before it
      starts backtracking. */
  function RunLength(t: string, p: nat, cap: nat): (m: nat)
    requires p <= |t|
    ensures m <= cap && p + m <= |t|
    decreases cap
  {
    if cap == 0 || p == |t| || IsLineTerminator(t[p]) then 0
    else 1 + RunLength(t, p + 1, cap - 1)
  }

  /** The greedy run holds no line terminator, and when it stops short of
      both the cap and the end of the text, a line terminator stopped it. */
  lemma {:induction false} RunLengthStops(t: string, p: nat, cap: nat)
    requires p <= |t|
    ensures forall e :: p <= e < p + RunLength(t, p, cap) ==> !IsLineTerminator(t[e])
    ensures RunLength(t, p, cap) < cap && p + RunLength(t, p, cap) < |t| ==>
      IsLineTerminator(t[p + RunLength(t, p, cap)])
    decreases cap
  {
    if !(cap == 0 || p == |t| || IsLineTerminator(t[p])) {
      RunLengthStops(t, p + 1, cap - 1);
    }
  }

  /** Backtracking from `m` characters down to one: the longest length whose
      end satisfies the lookahead, or 0 when none does. */
  function LongestFit(t: string, p: nat, m: nat): (k: nat)
    requires p + m <= |t|
    ensures k <= m
    decreases m
  {
    if m == 0 then 0
    else if Boundary(t, p + m) then m
    else LongestFit(t, p, m - 1)
  }

  /** Backtracking stops at the longest length whose end satisfies the
      lookahead: no longer length up to `m` does. */
  lemma {:induction false} LongestFitIsLongest(t: string, p: nat, m: nat)
    requires p + m <= |t|
    ensures LongestFit(t, p, m) > 0 ==> Boundary(t, p + LongestFit(t, p, m))
    ensures forall e :: p + LongestFit(t, p, m) < e <= p + m ==> !Boundary(t, e)
    decreases m
  {
    if m > 0 && !Boundary(t, p + m) {
      LongestFitIsLongest(t, p, m - 1);
    }
  }

  /** Length of the match `.{1,size}(?=\s|$)` finds when it tries position
      `p`; 0 means the attempt at `p` fails. */
  function MatchAt(t: string, size: nat, p: nat): nat
    requires p <= |t|
  {
    LongestFit(t, p, RunLength(t, p, size))
  }

  /** What an attempt at `p` gives: a length no longer than the greedy run,
      ending where the lookahead succeeds when it is not 0, with no longer
      candidate ending there; the run holds no line terminator and stops
      short of `size` and of the end only at one. */
  lemma MatchAtFacts(t: string, size: nat, p: nat)
    requires p <= |t|
    ensures MatchAt(t, size, p) <= RunLength(t, p, size)
    ensures MatchAt(t, size, p) > 0 ==> Boundary(t, p + MatchAt(t, size, p))
    ensures forall e :: p + MatchAt(t, size, p) < e <= p + RunLength(t, p, size) ==> !Boundary(t, e)
    ensures forall e :: p <= e < p + RunLength(t, p, size) ==> !IsLineTerminator(t[e])
    ensures RunLength(t, p, size) < size && p + RunLength(t, p, size) < |t| ==>
      IsLineTerminator(t[p + RunLength(t, p, size)])
  {
    RunLengthStops(t, p, size);
    LongestFitIsLongest(t, p, RunLength(t, p, size));
  }

  /** One match: `t[start..start + len]`. */
  datatype Span = Span(start: nat, len: nat)

  /** What every match of `.{1,size}(?=\s|$)` is: 1 to `size` characters
      with no line terminator, followed by `\s` or by the end of the text,
      and the longest such run at its start. */
  predicate IsMatch(t: string, size: nat, m: Span) {
    && 1 <= m.len <= size
    && m.start + m.len <= |t|
    && Boundary(t, m.start + m.len)
    && (forall e :: m.start <= e < m.start + m.len ==> !IsLineTerminator(t[e]))
    && m.len == MatchAt(t, size, m.start)
  }

  /** Every attempt stays inside the text: `a[q]` characters from `q` on. */
  predicate Advances(a: seq<nat>) {
    forall q :: 0 <= q < |a| ==> q + a[q] <= |a|
  }

  /** The length the attempt at each position of `t` finds. */
  function Attempts(t: string, size: nat): (a: seq<nat>)
    ensures |a| == |t| && Advances(a)
    ensures forall q :: 0 <= q < |t| ==> a[q] == MatchAt(t, size, q)
  {
    seq(|t|, q requires 0 <= q < |t| => MatchAt(t, size, q))
  }

  /** The scan `match` performs with the `g` flag from position `p`, given
      what each attempt finds: on success record the match and resume where
      it ends, otherwise resume one character later. */
  function Scan(a: seq<nat>, p: nat): (r: seq<Span>)
    requires p <= |a| && Advances(a)
    ensures forall i :: 0 <= i < |r| ==> r[i].start + r[i].len <= |a|
    decreases |a| - p
  {
    if p == |a| then []
    else if a[p] == 0 then Scan(a, p + 1)
    else
      var rest := Scan(a, p + a[p]);
      assert forall i :: 1 <= i < |rest| + 1 ==> ([Span(p, a[p])] + rest)[i] == rest[i - 1];
      [Span(p, a[p])] + rest
  }

  /** The spans of `text.match(/.{1,size}(?=\s|$)/g)` from position `p`. */
  function Matches(t: string, size: nat, p: nat): (r: seq<Span>)
    requires p <= |t|
    ensures InBounds(t, r)
  {
    Scan(Attempts(t, size), p)
  }

  /** Every span lies inside the text. */
  predicate InBounds(t: string, ms: seq<Span>) {
    forall i :: 0 <= i < |ms| ==> ms[i].start + ms[i].len <= |t|
  }

  /** The substring a span denotes. */
  function Piece(t: string, m: Span): string
    requires m.start + m.len <= |t|
  {
    t[m.start..m.start + m.len]
  }

  /** The spans lie inside `[p, n)`, one after the other. */
  predicate InOrderFrom(n: nat, p: nat, ms: seq<Span>)
    decreases |ms|
  {
    ms == [] || (p <= ms[0].start && ms[0].start + ms[0].len <= n
                 && InOrderFrom(n, ms[0].start + ms[0].len, ms[1..]))
  }

  /** The spans cover `[p, n)` exactly: the first starts at `p`, each next
      one where the previous one ended, and the last ends at `n`. */
  predicate Tiles(n: nat, p: nat, ms: seq<Span>)
    decreases |ms|
  {
    if ms == [] then p == n
    else ms[0].start == p && p + ms[0].len <= n && Tiles(n, p + ms[0].len, ms[1..])
  }

  /** Each recorded span starts where an attempt succeeded and is as long as
      that attempt. */
  lemma {:induction false} ScanSpans(a: seq<nat>, p: nat)
    requires p <= |a| && Advances(a)
    ensures forall i :: 0 <= i < |Scan(a, p)| ==>
      Scan(a, p)[i].start < |a| && Scan(a, p)[i].len == a[Scan(a, p)[i].start] && Scan(a, p)[i].len >= 1
    decreases |a| - p
  {
    if p < |a| {
      if a[p] == 0 {
        ScanSpans(a, p + 1);
      } else {
        ScanSpans(a, p + a[p]);
      }
    }
  }

  /** The scan lays its spans out in order inside `[p, |a|)`. */
  lemma {:induction false} ScanInOrder(a: seq<nat>, p: nat)
    requires p <= |a| && Advances(a)
    ensures InOrderFrom(|a|, p, Scan(a, p))
    decreases |a| - p
  {
    if p < |a| {
      if a[p] == 0 {
        ScanInOrder(a, p + 1);
      } else {
        var rest := Scan(a, p + a[p]);
        ScanInOrder(a, p + a[p]);
        assert ([Span(p, a[p])] + rest)[1..] == rest;
      }
    }
  }

  /** When no attempt from `p` on fails, the scan tiles `[p, |a|)`. */
  lemma {:induction false} ScanTiles(a: seq<nat>, p: nat)
    requires p <= |a| && Advances(a)
    requires forall q :: p <= q < |a| ==> a[q] >= 1
    ensures Tiles(|a|, p, Scan(a, p))
    decreases |a| - p
  {
    if p < |a| {
      var rest := Scan(a, p + a[p]);
      ScanTiles(a, p + a[p]);
      assert ([Span(p, a[p])] + rest)[1..] == rest;
    }
  }

  /** The scan records something when the attempt at the last position
      succeeds. */
  lemma {:induction false} ScanNonEmpty(a: seq<nat>, p: nat)
    requires p < |a| && Advances(a) && a[|a| - 1] >= 1
    ensures |Scan(a, p)| >= 1
    decreases |a| - p
  {
    if a[p] == 0 {
      ScanNonEmpty(a, p + 1);
    }
  }

  /** Spans in order from `p` start at or after `p` and each ends before
      the next begins. */
  lemma {:induction false} InOrderPairwise(n: nat, p: nat, ms: seq<Span>)
    requires InOrderFrom(n, p, ms)
    ensures forall i :: 0 <= i < |ms| ==> p <= ms[i].start
    ensures forall i, j :: 0 <= i < j < |ms| ==> ms[i].start + ms[i].len <= ms[j].start
    decreases |ms|
  {
    if ms != [] {
      var rest := ms[1..];
      InOrderPairwise(n, ms[0].start + ms[0].len, rest);
      assert forall i :: 1 <= i < |ms| ==> ms[i] == rest[i - 1];
    }
  }

  /** Every span the scan records from `p` on is a match of the regular
      expression starting at or after `p`. */
  lemma MatchesAreMatches(t: string, size: nat, p: nat)
    requires p <= |t|
    ensures forall i :: 0 <= i < |Matches(t, size, p)| ==>
      p <= Matches(t, size, p)[i].start && IsMatch(t, size, Matches(t, size, p)[i])
  {
    var a := Attempts(t, size);
    var ms := Matches(t, size, p);
    ScanSpans(a, p);
    ScanInOrder(a, p);
    InOrderPairwise(|t|, p, ms);
    forall i | 0 <= i < |ms| ensures IsMatch(t, size, ms[i]) {
      MatchAtFacts(t, size, ms[i].start);
    }
  }

  /** The spans are disjoint and in left-to-right order. */
  lemma MatchesOrdered(t: string, size: nat, p: nat)
    requires p <= |t|
    ensures forall i, j :: 0 <= i < j < |Matches(t, size, p)| ==>
      Matches(t, size, p)[i].start + Matches(t, size, p)[i].len <= Matches(t, size, p)[j].start
  {
    ScanInOrder(Attempts(t, size), p);
    InOrderPairwise(|t|, p, Matches(t, size, p));
  }

  /** The matched substrings, in order. */
  function Texts(t: string, ms: seq<Span>): (r: seq<string>)
    requires InBounds(t, ms)
    ensures |r| == |ms|
    ensures forall i :: 0 <= i < |ms| ==> r[i] == Piece(t, ms[i])
  {
    if ms == [] then [] else [Piece(t, ms[0])] + Texts(t, ms[1..])
  }

  /** `text.match(new RegExp(`.{1,${size}}(?=\\s|$)`, 'g')) || []`. */
  function Chunks(t: string, size: nat): seq<string> {
    Texts(t, Matches(t, size, 0))
  }

  function Concat(ss: seq<string>): string {
    if ss == [] then [] else ss[0] + Concat(ss[1..])
  }

  /** Length of the run of non-`\s` characters starting at `i`. */
  function WordLength(t: string, i: nat): (n: nat)
    requires i <= |t|
    ensures i + n <= |t| && Boundary(t, i + n)
    ensures forall e :: i <= e < i + n ==> !IsSpace(t[e])
    decreases |t| - i
  {
    if i == |t| || IsSpace(t[i]) then 0 else 1 + WordLength(t, i + 1)
  }

  /** No word is too long to fit: every run of non-`\s` characters is
      shorter than the chunk size. */
  predicate WordsFit(t: string, size: nat) {
    forall i :: 0 <= i < |t| ==> WordLength(t, i) < size
  }

  predicate NoLineTerminator(t: string) {
    forall i :: 0 <= i < |t| ==> !IsLineTerminator(t[i])
  }

  /** When words fit, the attempt at any position succeeds. */
  lemma MatchExists(t: string, size: nat, p: nat)
    requires p < |t| && NoLineTerminator(t) && WordsFit(t, size)
    ensures MatchAt(t, size, p) >= 1
  {
    MatchAtFacts(t, size, p);
    var m := RunLength(t, p, size);
    if |t| - p <= size {
      assert m == |t| - p;
      assert Boundary(t, p + m);
    } else {
      assert m == size;
      assert WordLength(t, p) < size;
      var q := if IsSpace(t[p]) then p + 1 else p;
      assert q < |t| && WordLength(t, q) < size;
      var e := q + WordLength(t, q);
      assert p < e <= p + m && Boundary(t, e);
    }
  }

  lemma TextsCons(t: string, m: Span, rest: seq<Span>)
    requires m.start + m.len <= |t| && InBounds(t, rest) && InBounds(t, [m] + rest)
    ensures Texts(t, [m] + rest) == [Piece(t, m)] + Texts(t, rest)
  {
    assert ([m] + rest)[1..] == rest;
  }

  lemma ConcatCons(x: string, xs: seq<string>)
    ensures Concat([x] + xs) == x + Concat(xs)
  {
    assert ([x] + xs)[1..] == xs;
  }

  /** The tail of in-bounds spans is in bounds. */
  lemma InBoundsTail(t: string, ms: seq<Span>)
    requires ms != [] && InBounds(t, ms)
    ensures InBounds(t, ms[1..])
  {
    assert forall i :: 0 <= i < |ms| - 1 ==> ms[1..][i] == ms[i + 1];
  }

  /** Spans that tile `t[p..]` put back together give `t[p..]`. */
  lemma {:induction false} TilesReassemble(t: string, p: nat, ms: seq<Span>)
    requires p <= |t| && InBounds(t, ms) && Tiles(|t|, p, ms)
    ensures Concat(Texts(t, ms)) == t[p..]
    decreases |ms|
  {
    if ms != [] {
      var m := ms[0];
      var rest := ms[1..];
      assert ms == [m] + rest;
      InBoundsTail(t, ms);
      TilesReassemble(t, p + m.len, rest);
      TextsCons(t, m, rest);
      ConcatCons(Piece(t, m), Texts(t, rest));
      assert t[p..p + m.len] + t[p + m.len..] == t[p..];
    } else {
      assert Texts(t, ms) == [];
    }
  }

  /** Spans in order inside `t[p..]` hold at most `|t| - p` characters. */
  lemma {:induction false} InOrderLength(t: string, p: nat, ms: seq<Span>)
    requires p <= |t| && InBounds(t, ms) && InOrderFrom(|t|, p, ms)
    ensures |Concat(Texts(t, ms))| <= |t| - p
    decreases |ms|
  {
    if ms != [] {
      var m := ms[0];
      var rest := ms[1..];
      assert ms == [m] + rest;
      InBoundsTail(t, ms);
      InOrderLength(t, m.start + m.len, rest);
      TextsCons(t, m, rest);
      ConcatCons(Piece(t, m), Texts(t, rest));
    } else {
      assert Texts(t, ms) == [];
    }
  }

  /** When no attempt fails, the chunks from `p` on put back together are
      the text from `p` on: no character is lost. */
  lemma ChunksReassemble(t: string, size: nat, p: nat)
    requires p <= |t| && forall q :: p <= q < |t| ==> MatchAt(t, size, q) >= 1
    ensures Concat(Texts(t, Matches(t, size, p))) == t[p..]
  {
    ScanTiles(Attempts(t, size), p);
    TilesReassemble(t, p, Matches(t, size, p));
  }

  /** The chunking is a lossless partition of any text without line
      terminators whose words fit. */
  lemma ChunksLossless(t: string, size: nat)
    ensures NoLineTerminator(t) && WordsFit(t, size) ==> Concat(Chunks(t, size)) == t
  {
    if NoLineTerminator(t) && WordsFit(t, size) {
      forall q | 0 <= q < |t| ensures MatchAt(t, size, q) >= 1 {
        MatchExists(t, size, q);
      }
      ChunksReassemble(t, size, 0);
    }
  }

  /** The chunks from `p` on never hold more than the text from `p` on. */
  lemma ChunksLength(t: string, size: nat, p: nat)
    requires p <= |t|
    ensures |Concat(Texts(t, Matches(t, size, p)))| <= |t| - p
  {
    ScanInOrder(Attempts(t, size), p);
    InOrderLength(t, p, Matches(t, size, p));
  }

  /** A text that opens with a word longer than the chunk size loses that
      word's first character: the attempt at 0 fails and the scan moves on. */
  lemma LongFirstWordIsCut(t: string, size: nat)
    requires |t| > size
    requires forall i :: 0 <= i <= size ==> !IsSpace(t[i])
    ensures Concat(Chunks(t, size)) != t
  {
    MatchAtFacts(t, size, 0);
    var a := Attempts(t, size);
    assert a[0] == MatchAt(t, size, 0) == 0;
    assert Matches(t, size, 0) == Matches(t, size, 1);
    ChunksLength(t, size, 1);
  }

  /** At least one chunk whenever the text's last character is one `.`
      matches. */
  lemma ChunksNonEmpty(t: string, size: nat)
    requires size >= 1 && |t| >= 1 && !IsLineTerminator(t[|t| - 1])
    ensures |Matches(t, size, 0)| >= 1
  {
    var p := |t| - 1;
    assert RunLength(t, p, size) == 1;
    assert Boundary(t, p + 1);
    assert MatchAt(t, size, p) == 1;
    ScanNonEmpty(Attempts(t, size), 0);
  }

  /** What the chunking gives on a normalised, non-blank text. */
  lemma ChunksOfNormalized(t: string, size: nat)
    requires size >= 1 && IsNormalized(t) && !AllSpace(t)
    ensures |Chunks(t, size)| >= 1
    ensures forall i :: 0 <= i < |Chunks(t, size)| ==> 1 <= |Chunks(t, size)[i]| <= size
    ensures WordsFit(t, size) ==> Concat(Chunks(t, size)) == t
  {
    NormalizedHasNoLineTerminator(t);
    ChunksNonEmpty(t, size);
    ChunksLossless(t, size);
    MatchesAreMatches(t, size, 0);
  }

  // ---------------------------------------------------------------------
  // preprocessText
  // ---------------------------------------------------------------------

  /** The second half of `preprocessText`: the chunks of the rewritten
      text, refused when `text.trim()` is empty. */
  function ChunkOrRefuse(t: string): (r: Result<seq<string>, PreprocessError>)
    requires IsNormalized(t)
    ensures r.Failure? <==> AllSpace(t)
    ensures r.Success? ==> |r.value| >= 1
    ensures r.Success? ==> forall i :: 0 <= i < |r.value| ==> 1 <= |r.value[i]| <= MaxChunkSize
    ensures r.Success? && WordsFit(t, MaxChunkSize) ==> Concat(r.value) == t
  {
    TrimEmptyIffAllSpace(t);
    if Trim(t) == [] then Failure(EmptyAfterPreprocessing)
    else
      ChunksOfNormalized(t, MaxChunkSize);
      Success(Chunks(t, MaxChunkSize))
  }

  /** `preprocessText(text)`: the chunks of the normalised text, or the
      "Text is empty after preprocessing" error when that text is blank. */
  function PreprocessText(text: string): (r: Result<seq<string>, PreprocessError>)
    ensures r.Failure? <==> AllSpace(Normalize(text))
    ensures r.Success? ==> |r.value| >= 1
    ensures r.Success? ==> forall i :: 0 <= i < |r.value| ==> 1 <= |r.value[i]| <= MaxChunkSize
    ensures r.Success? && WordsFit(Normalize(text), MaxChunkSize) ==> Concat(r.value) == Normalize(text)
  {
    NormalizeShape(text);
    ChunkOrRefuse(Normalize(text))
  }

  /** Blank text stays blank through the three rewrites. */
  lemma NormalizedBlankWhenTextBlank(text: string)
    ensures AllSpace(text) ==> AllSpace(Normalize(text))
  {
    if AllSpace(text) {
      CollapseChars(text);
      TrimEmptyIffAllSpace(Collapse(text));
    }
  }

  /** Text that trims to nothing is refused by preprocessing as well. */
  lemma BlankTextFailsPreprocessing(text: string)
    ensures Trim(text) == [] ==> PreprocessText(text).Failure?
  {
    TrimEmptyIffAllSpace(text);
    NormalizedBlankWhenTextBlank(text);
  }
}
