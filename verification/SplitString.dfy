/**
 The configuration splitter of apps/src/app_conf.c.  It copies the string, puts NULs
 behind the tokens in place, and returns pointers into the copy.
 */
module SplitString {
  import opened Wrappers
  import opened Strings

  // --------------------------------------------------------------- what it should do

  predicate Blank(s: string) {
    forall i :: 0 <= i < |s| ==> IsSpace(s[i])
  }

  function TrimLeft(s: string): string {
    if s != [] && IsSpace(s[0]) then TrimLeft(s[1..]) else s
  }

  function TrimRight(s: string): string {
    if s != [] && IsSpace(s[|s| - 1]) then TrimRight(s[..|s| - 1]) else s
  }

  function Trim(s: string): string {
    TrimRight(TrimLeft(s))
  }

  /** The pieces between separators; there is always at least one. */
  function Segments(s: string, sep: char): (r: seq<string>)
    ensures r != []
  {
    if s == [] then [[]]
    else
      var rest := Segments(s[1..], sep);
      if s[0] == sep then [[]] + rest else [[s[0]] + rest[0]] + rest[1..]
  }

  function TrimAll(segs: seq<string>): (r: seq<string>)
    ensures |r| == |segs| && forall i :: 0 <= i < |segs| ==> r[i] == Trim(segs[i])
  {
    seq(|segs|, i requires 0 <= i < |segs| => Trim(segs[i]))
  }

  /** The tokens: every segment trimmed, except a blank last one. */
  function TokensOf(segs: seq<string>): seq<string>
    requires segs != []
  {
    var last := segs[|segs| - 1];
    TrimAll(segs[..|segs| - 1]) + if Blank(last) then [] else [Trim(last)]
  }

  /** Blank segments other than the last are an error unless they are allowed. */
  predicate Wellformed(segs: seq<string>, allowEmpty: bool) {
    allowEmpty || forall i :: 0 <= i < |segs| - 1 ==> !Blank(segs[i])
  }

  // --------------------------------------------------------- the same, left to right

  function Prepend(a: seq<string>, b: Option<seq<string>>): Option<seq<string>> {
    if b.Some? then Some(a + b.value) else None
  }

  /** The length of the first segment. */
  function Cut(s: string, sep: char): (n: nat)
    ensures n <= |s| && (n < |s| ==> s[n] == sep)
    ensures forall i :: 0 <= i < n ==> s[i] != sep
  {
    if s == [] || s[0] == sep then 0 else 1 + Cut(s[1..], sep)
  }

  function Split(s: string, sep: char, allowEmpty: bool): Option<seq<string>>
    decreases |s|
  {
    var n := Cut(s, sep);
    if n == |s| then Some(if Blank(s) then [] else [Trim(s)])
    else if Blank(s[..n]) && !allowEmpty then None
    else Prepend([Trim(s[..n])], Split(s[n + 1..], sep, allowEmpty))
  }

  lemma {:induction false} FirstSegment(s: string, sep: char)
    ensures var n := Cut(s, sep);
            Segments(s, sep) == if n == |s| then [s] else [s[..n]] + Segments(s[n + 1..], sep)
  {
    if s != [] && s[0] != sep {
      FirstSegment(s[1..], sep);
      var n := Cut(s[1..], sep);
      assert [s[0]] + s[1..] == s && [s[0]] + s[1..][..n] == s[..n + 1];
      assert n < |s[1..]| ==> s[1..][n + 1..] == s[n + 2..];
    }
  }

  lemma ConsSegment(first: string, rest: seq<string>, allowEmpty: bool)
    requires rest != []
    ensures TokensOf([first] + rest) == [Trim(first)] + TokensOf(rest)
    ensures Wellformed([first] + rest, allowEmpty) <==> (allowEmpty || !Blank(first)) && Wellformed(rest, allowEmpty)
  {
    var segs := [first] + rest;
    assert segs[..|segs| - 1] == [first] + rest[..|rest| - 1];
    assert TrimAll(segs[..|segs| - 1]) == [Trim(first)] + TrimAll(rest[..|rest| - 1]);
    assert segs[0] == first && forall i :: 0 <= i < |rest| ==> segs[i + 1] == rest[i];
  }

  /** Splitting left to right yields the tokens of the segments. */
  lemma {:induction false} SplitIsTokens(s: string, sep: char, allowEmpty: bool)
    ensures var segs := Segments(s, sep);
            Split(s, sep, allowEmpty) == if Wellformed(segs, allowEmpty) then Some(TokensOf(segs)) else None
    decreases |s|
  {
    FirstSegment(s, sep);
    var n, segs := Cut(s, sep), Segments(s, sep);
    if n < |s| {
      SplitIsTokens(s[n + 1..], sep, allowEmpty);
      ConsSegment(s[..n], Segments(s[n + 1..], sep), allowEmpty);
    } else {
      assert segs == [s] && segs[|segs| - 1] == s;
      assert TrimAll(segs[..0]) == [];
      assert TokensOf(segs) == if Blank(s) then [] else [Trim(s)];
    }
  }

  /** One step of the split, in terms of the first segment. */
  function SplitStep(
    blank: bool, word: string, last: bool, allowEmpty: bool, rest: Option<seq<string>>): Option<seq<string>>
  {
    if last then Some(if blank then [] else [word])
    else if blank && !allowEmpty then None
    else Prepend([word], rest)
  }

  lemma SplitUnfolds(s: string, sep: char, allowEmpty: bool, n: nat)
    requires n == Cut(s, sep)
    ensures Split(s, sep, allowEmpty) ==
            SplitStep(Blank(s[..n]), Trim(s[..n]), n == |s|, allowEmpty,
                      if n == |s| then None else Split(s[n + 1..], sep, allowEmpty))
  {
    if n == |s| {
      assert s[..n] == s;
    }
  }

  lemma BlankTail(s: string)
    requires s != [] && IsSpace(s[0])
    ensures (Blank(s) <==> Blank(s[1..])) && Trim(s) == Trim(s[1..])
  {
    assert forall i :: 0 < i < |s| ==> s[i] == s[1..][i - 1];
  }

  lemma DropSpace(s: string, sep: char, allowEmpty: bool)
    requires s != [] && IsSpace(s[0]) && !IsSpace(sep)
    ensures Split(s[1..], sep, allowEmpty) == Split(s, sep, allowEmpty)
  {
    var t := s[1..];
    var n := Cut(t, sep);
    SplitUnfolds(t, sep, allowEmpty, n);
    SplitUnfolds(s, sep, allowEmpty, n + 1);
    assert s[..n + 1][1..] == t[..n];
    BlankTail(s[..n + 1]);
    if n < |t| {
      assert s[n + 2..] == t[n + 1..];
    }
  }

  /** Leading white space makes no difference. */
  lemma {:induction false} LeadingSpace(s: string, sep: char, allowEmpty: bool)
    requires !IsSpace(sep)
    ensures Split(TrimLeft(s), sep, allowEmpty) == Split(s, sep, allowEmpty)
    decreases |s|
  {
    if s != [] && IsSpace(s[0]) {
      LeadingSpace(s[1..], sep, allowEmpty);
      DropSpace(s, sep, allowEmpty);
    }
  }

  // ------------------------------------------------------------- the in-place code

  /** The end of the token that starts at `begin`, in a segment that ends at `curr`; -1 for a forbidden empty one. */
  method FindEndIdx(res: array<char>, sep: char, begin: nat, curr: nat, allowEmpty: bool) returns (end: int)
    requires begin <= curr < res.Length && !IsSpace(res[begin]) && (res[begin] == sep ==> begin == curr)
    ensures res[begin] == sep ==> end == if allowEmpty then begin else -1
    ensures res[begin] != sep ==>
              begin < end <= curr + 1 && !IsSpace(res[end - 1]) && res[end - 1] != sep &&
              forall j :: end <= j <= curr ==> IsSpace(res[j]) || res[j] == sep
  {
    var idx: int := curr;
    while idx >= 0 && (IsSpace(res[idx]) || res[idx] == sep)
      invariant -1 <= idx <= curr && (res[begin] != sep ==> begin <= idx)
      invariant forall j :: idx < j <= curr ==> IsSpace(res[j]) || res[j] == sep
    {
      idx := idx - 1;
    }
    if begin < idx {
      return idx + 1;
    } else if res[begin] != sep {
      return begin + 1;
    } else if allowEmpty {
      return begin;
    } else {
      return -1;
    }
  }

  lemma {:induction false} TrimLeftDrops(s: string, b: nat)
    requires b <= |s| && Blank(s[..b]) && (b < |s| ==> !IsSpace(s[b]))
    ensures TrimLeft(s) == s[b..]
    decreases b
  {
    if b > 0 {
      assert s[..b][0] == s[0];
      var head, tail := s[..b], s[1..][..b - 1];
      assert Blank(tail) by {
        assert forall i :: 0 <= i < |tail| ==> tail[i] == head[i + 1];
      }
      TrimLeftDrops(s[1..], b - 1);
      assert s[1..][b - 1..] == s[b..];
    }
  }

  lemma {:induction false} TrimRightDrops(s: string, e: nat)
    requires e <= |s| && Blank(s[e..]) && (e > 0 ==> !IsSpace(s[e - 1]))
    ensures TrimRight(s) == s[..e]
    decreases |s| - e
  {
    if e < |s| {
      assert s[e..][|s| - e - 1] == s[|s| - 1];
      var front := s[..|s| - 1];
      assert Blank(front[e..]) by {
        assert forall i :: 0 <= i < |front| - e ==> front[e..][i] == s[e..][i];
      }
      TrimRightDrops(front, e);
      assert front[..e] == s[..e];
    } else {
      assert s[..e] == s;
    }
  }

  /** A segment with its first and last significant characters located. */
  lemma TrimIsSlice(s: string, b: nat, e: nat)
    requires b < e <= |s| && Blank(s[..b]) && Blank(s[e..]) && !IsSpace(s[b]) && !IsSpace(s[e - 1])
    ensures Trim(s) == s[b..e] && !Blank(s)
  {
    TrimLeftDrops(s, b);
    assert s[b..][e - b..] == s[e..];
    TrimRightDrops(s[b..], e - b);
    assert s[b..][..e - b] == s[b..e];
  }

  lemma TrimOfBlank(s: string)
    requires Blank(s)
    ensures Trim(s) == []
  {
    assert s[..|s|] == s;
    TrimLeftDrops(s, |s|);
  }

  /** The buffer holds the C string w at offset b, its NUL included before `limit`. */
  ghost predicate TokenAt(buf: seq<char>, b: nat, w: string, limit: nat) {
    b + |w| < limit <= |buf| && buf[b..b + |w|] == w && buf[b + |w|] == '\0' && '\0' !in w
  }

  ghost predicate Placed(buf: seq<char>, starts: seq<nat>, tokens: seq<string>, limit: nat) {
    |starts| == |tokens| && limit <= |buf| &&
    forall k :: 0 <= k < |tokens| ==> TokenAt(buf, starts[k], tokens[k], limit)
  }

  lemma PlacedStays(buf: seq<char>, buf': seq<char>, starts: seq<nat>, tokens: seq<string>, limit: nat, limit': nat)
    requires Placed(buf, starts, tokens, limit) && limit <= limit' <= |buf'| && buf'[..limit] == buf[..limit]
    ensures Placed(buf', starts, tokens, limit')
  {
    forall k | 0 <= k < |tokens| ensures TokenAt(buf', starts[k], tokens[k], limit') {
      var b, e := starts[k], starts[k] + |tokens[k]|;
      assert TokenAt(buf, b, tokens[k], limit);
      assert buf'[..limit][b..e] == buf'[b..e] && buf[..limit][b..e] == buf[b..e];
      assert buf'[..limit][e] == buf[..limit][e];
    }
  }

  lemma {:induction false} CStringIs(buf: seq<char>, w: string)
    requires |w| < |buf| && buf[..|w|] == w && buf[|w|] == '\0' && '\0' !in w
    ensures CString(buf) == w
    decreases |w|
  {
    if w != [] {
      assert buf[0] == w[0] && buf[1..][..|w| - 1] == w[1..];
      CStringIs(buf[1..], w[1..]);
    }
  }

  /** A segment of s from p that closes at i, with its first significant character at `begin`. */
  ghost predicate SegmentAt(s: string, sep: char, p: nat, begin: nat, i: nat) {
    p <= begin <= i < |s| && Blank(s[p..begin]) && !IsSpace(s[begin]) &&
    (forall j :: p <= j < i ==> s[j] != sep) && (s[i] == sep || i + 1 == |s|)
  }

  function SegmentEnd(s: string, sep: char, i: nat): nat
    requires i < |s|
  {
    if s[i] == sep then i else i + 1
  }

  lemma SegmentTrims(s: string, sep: char, p: nat, begin: nat, i: nat, end: nat)
    requires SegmentAt(s, sep, p, begin, i) && s[begin] != sep && !IsSpace(sep)
    requires begin < end <= i + 1 && !IsSpace(s[end - 1]) && s[end - 1] != sep
    requires forall j :: end <= j <= i ==> IsSpace(s[j]) || s[j] == sep
    ensures end <= SegmentEnd(s, sep, i)
    ensures var seg := s[p..SegmentEnd(s, sep, i)]; Trim(seg) == s[begin..end] && !Blank(seg)
  {
    var q := SegmentEnd(s, sep, i);
    var seg, tail := s[p..q], s[end..q];
    SliceOfSlice(s, p, q, p, begin);
    SliceOfSlice(s, p, q, end, q);
    SliceOfSlice(s, p, q, begin, end);
    assert Blank(tail) by {
      forall k | 0 <= k < |tail| ensures IsSpace(tail[k]) {
        assert tail[k] == s[end + k];
      }
    }
    assert seg[begin - p] == s[begin] && seg[end - p - 1] == s[end - 1];
    TrimIsSlice(seg, begin - p, end - p);
  }

  lemma SliceOfSlice(s: string, p: nat, q: nat, b: nat, e: nat)
    requires p <= b <= e <= q <= |s|
    ensures s[p..q][b - p..e - p] == s[b..e]
    ensures b == p ==> s[p..q][..e - p] == s[b..e]
    ensures e == q ==> s[p..q][b - p..] == s[b..e]
  {
    var t := s[p..q];
    var u := t[b - p..e - p];
    forall k | 0 <= k < |u| ensures u[k] == s[b..e][k] {
      assert u[k] == t[b - p + k] == s[b + k];
    }
    assert u == s[b..e];
  }

  /** The effect of one NUL behind a token. */
  lemma NulEndsToken(s: string, buf: seq<char>, p: nat, begin: nat, i: nat, end: nat)
    requires '\0' !in s && p <= begin <= end && begin <= i < |s| && |buf| == |s| + 1
    requires end <= i || (end == i + 1 == |s|)
    requires buf[p..] == s[p..] + ['\0']
    ensures var after := buf[end := '\0'];
            TokenAt(after, begin, s[begin..end], end + 1) && after[..p] == buf[..p] &&
            after[i + 1..] == s[i + 1..] + ['\0']
  {
  }

  lemma TokenWidens(buf: seq<char>, b: nat, w: string, limit: nat, limit': nat)
    requires TokenAt(buf, b, w, limit) && limit <= limit' <= |buf|
    ensures TokenAt(buf, b, w, limit')
  {
  }

  /** Where the token of a closing segment ends: at its start when the segment is blank and that is allowed. */
  method TokenEnd(res: array<char>, sep: char, begin: nat, i: nat, allowEmpty: bool, ghost s: string, ghost p: nat)
    returns (end: int)
    requires !IsSpace(sep) && SegmentAt(s, sep, p, begin, i)
    requires res.Length == |s| + 1 && res[p..] == s[p..] + ['\0']
    ensures var q := SegmentEnd(s, sep, i);
            (end == -1 <==> !allowEmpty && Blank(s[p..q])) &&
            (end != -1 ==> begin <= end <= q && Trim(s[p..q]) == s[begin..end])
  {
    ghost var full := s[p..] + ['\0'];
    assert forall j :: p <= j <= i ==> res[j] == res[p..][j - p] == full[j - p] == s[j];
    end := FindEndIdx(res, sep, begin, i, allowEmpty);
    if s[begin] == sep {
      TrimOfBlank(s[p..begin]);
    } else {
      SegmentTrims(s, sep, p, begin, i, end);
    }
  }

  /** The buffer still holds the segment that closes at i, and everything behind it. */
  ghost predicate Closing(s: string, sep: char, p: nat, begin: nat, i: nat, buf: seq<char>) {
    SegmentAt(s, sep, p, begin, i) && |buf| == |s| + 1 && buf[p..] == s[p..] + ['\0']
  }

  /** The trimmed segment is in place, and nothing before or behind the segment has changed. */
  ghost predicate Closed(s: string, sep: char, p: nat, begin: nat, i: nat, buf: seq<char>, buf': seq<char>)
    requires SegmentAt(s, sep, p, begin, i) && p <= |buf|
  {
    var q := SegmentEnd(s, sep, i);
    TokenAt(buf', begin, Trim(s[p..q]), q + 1) && |buf'| == |buf| == |s| + 1 &&
    buf'[..p] == buf[..p] && buf'[i + 1..] == s[i + 1..] + ['\0']
  }

  /** Close a segment: find the end of its token and put a NUL there. */
  method CloseToken(
    res: array<char>, sep: char, begin: nat, i: nat, allowEmpty: bool, ghost s: string, ghost p: nat)
    returns (ok: bool)
    requires !IsSpace(sep) && '\0' !in s && Closing(s, sep, p, begin, i, res[..])
    modifies res
    ensures ok <==> allowEmpty || !Blank(s[p..SegmentEnd(s, sep, i)])
    ensures ok ==> Closed(s, sep, p, begin, i, old(res[..]), res[..])
  {
    ghost var buf := res[..];
    assert buf[p..] == res[p..];
    var end := TokenEnd(res, sep, begin, i, allowEmpty, s, p);
    if end == -1 {
      return false;
    }
    NulEndsToken(s, buf, p, begin, i, end);
    res[end] := '\0';
    assert res[..] == buf[end := '\0'];
    TokenWidens(res[..], begin, s[begin..end], end + 1, SegmentEnd(s, sep, i) + 1);
    return true;
  }

  // ------------------------------------------------------------------ the main loop

  /** What is still to come from position p; nothing once the last segment is closed. */
  function Rest(s: string, sep: char, allowEmpty: bool, p: nat): Option<seq<string>> {
    if p > |s| then Some([]) else Split(s[p..], sep, allowEmpty)
  }

  lemma {:induction false} CutIs(s: string, sep: char, n: nat)
    requires n <= |s| && (forall i :: 0 <= i < n ==> s[i] != sep) && (n < |s| ==> s[n] == sep)
    ensures Cut(s, sep) == n
    decreases |s|
  {
  }

  lemma RestAfterSeparator(s: string, sep: char, allowEmpty: bool, p: nat, q: nat)
    requires p <= q < |s| && s[q] == sep && forall j :: p <= j < q ==> s[j] != sep
    ensures Rest(s, sep, allowEmpty, p) ==
            if Blank(s[p..q]) && !allowEmpty then None
            else Prepend([Trim(s[p..q])], Rest(s, sep, allowEmpty, q + 1))
  {
    var r := s[p..];
    assert r[..q - p] == s[p..q] && r[q - p + 1..] == s[q + 1..];
    assert forall j :: 0 <= j < q - p ==> r[j] == s[p + j];
    CutIs(r, sep, q - p);
  }

  lemma RestOfLast(s: string, sep: char, allowEmpty: bool, p: nat, begin: nat)
    requires p <= begin < |s| && !IsSpace(s[begin]) && forall j :: p <= j < |s| ==> s[j] != sep
    ensures !Blank(s[p..]) && Rest(s, sep, allowEmpty, p) == Some([Trim(s[p..])])
  {
    var r := s[p..];
    assert r[begin - p] == s[begin];
    assert forall j :: 0 <= j < |r| ==> r[j] == s[p + j];
    CutIs(r, sep, |r|);
  }

  /** What is to come from p: the trimmed segment that closes at i, unless it is blank and that is forbidden, and the rest. */
  lemma RestAfterSegment(s: string, sep: char, allowEmpty: bool, p: nat, begin: nat, i: nat)
    requires SegmentAt(s, sep, p, begin, i) && !IsSpace(sep)
    ensures var q := SegmentEnd(s, sep, i);
            Rest(s, sep, allowEmpty, p) ==
            if Blank(s[p..q]) && !allowEmpty then None
            else Prepend([Trim(s[p..q])], Rest(s, sep, allowEmpty, q + 1))
  {
    if s[i] == sep {
      RestAfterSeparator(s, sep, allowEmpty, p, i);
    } else {
      RestOfLast(s, sep, allowEmpty, p, begin);
      assert s[p..i + 1] == s[p..];
      assert [Trim(s[p..])] + [] == [Trim(s[p..])];
    }
  }

  lemma PrependNext(
    whole: Option<seq<string>>, done: seq<string>, a: Option<seq<string>>, refused: bool, word: string,
    b: Option<seq<string>>)
    requires whole == Prepend(done, a) && a == if refused then None else Prepend([word], b)
    ensures if refused then whole.None? else whole == Prepend(done + [word], b)
  {
    if b.Some? {
      assert done + ([word] + b.value) == done + [word] + b.value;
    }
  }

  /** Splitting yields the tokens stored so far and then those of the rest from p. */
  ghost predicate Progress(s: string, sep: char, allowEmpty: bool, done: seq<string>, p: nat) {
    Split(s, sep, allowEmpty) == Prepend(done, Rest(s, sep, allowEmpty, p))
  }

  /** The tokens stored so far are in place before p, and the buffer from p on is still the string. */
  ghost predicate Layout(
    s: string, sep: char, buf: seq<char>, starts: seq<nat>, done: seq<string>, p: nat, i: nat)
  {
    i <= |s| && p <= |s| + 1 == |buf| && (p <= i || i == |s|) && |done| <= |starts| &&
    buf[p..] == (s + ['\0'])[p..] &&
    (forall j :: p <= j < i ==> s[j] != sep) &&
    Placed(buf, starts[..|done|], done, p) &&
    (starts != [] ==> starts[0] == 0)
  }

  /** Between two segments, or inside blanks or a token that has begun. */
  ghost predicate Scanning(
    s: string, sep: char, allowEmpty: bool, buf: seq<char>, starts: seq<nat>, done: seq<string>, p: nat, i: nat)
  {
    Layout(s, sep, buf, starts, done, p, i) && Progress(s, sep, allowEmpty, done, p)
  }

  /** No token has begun in the current segment. */
  ghost predicate Idle(s: string, starts: seq<nat>, done: seq<string>, p: nat, i: nat)
    requires i <= |s|
  {
    |starts| == |done| && (p <= i ==> Blank(s[p..i])) && (starts == [] ==> p == i == 0)
  }

  /** The current segment's token has begun, at `begin`. */
  ghost predicate Open(
    s: string, sep: char, allowEmpty: bool, buf: seq<char>, starts: seq<nat>, done: seq<string>, p: nat, i: nat,
    begin: nat)
  {
    Scanning(s, sep, allowEmpty, buf, starts, done, p, i) &&
    |starts| == |done| + 1 && starts[|done|] == begin && p <= begin <= i < |s| &&
    Blank(s[p..begin]) && !IsSpace(s[begin])
  }

  /** The loop variables: the pointers stored so far, and the token that has begun, if any. */
  datatype Scan = Scan(starts: seq<nat>, hasBegin: bool, begin: nat, i: nat)

  ghost predicate LoopInvariant(
    s: string, sep: char, allowEmpty: bool, buf: seq<char>, v: Scan, done: seq<string>, p: nat)
  {
    if v.hasBegin then Open(s, sep, allowEmpty, buf, v.starts, done, p, v.i, v.begin)
    else Scanning(s, sep, allowEmpty, buf, v.starts, done, p, v.i) && Idle(s, v.starts, done, p, v.i)
  }

  lemma SegmentGoesOn(
    s: string, sep: char, allowEmpty: bool, done: seq<string>, p: nat, begin: nat, i: nat, q: nat, word: string)
    requires Progress(s, sep, allowEmpty, done, p) && SegmentAt(s, sep, p, begin, i) && !IsSpace(sep)
    requires q == SegmentEnd(s, sep, i) && word == Trim(s[p..q]) && (allowEmpty || !Blank(s[p..q]))
    ensures Progress(s, sep, allowEmpty, done + [word], q + 1)
  {
    RestAfterSegment(s, sep, allowEmpty, p, begin, i);
    PrependNext(
      Split(s, sep, allowEmpty), done, Rest(s, sep, allowEmpty, p), false, word, Rest(s, sep, allowEmpty, q + 1));
  }

  lemma SegmentStops(
    s: string, sep: char, allowEmpty: bool, done: seq<string>, p: nat, begin: nat, i: nat, q: nat)
    requires Progress(s, sep, allowEmpty, done, p) && SegmentAt(s, sep, p, begin, i) && !IsSpace(sep)
    requires q == SegmentEnd(s, sep, i) && !allowEmpty && Blank(s[p..q])
    ensures Split(s, sep, allowEmpty).None?
  {
    RestAfterSegment(s, sep, allowEmpty, p, begin, i);
  }

  lemma TokenCloses(
    s: string, sep: char, buf: seq<char>, buf': seq<char>, starts: seq<nat>, done: seq<string>,
    p: nat, i: nat, begin: nat, q: nat, word: string)
    requires Layout(s, sep, buf, starts, done, p, i) && |starts| == |done| + 1 && starts[|done|] == begin
    requires SegmentAt(s, sep, p, begin, i) && q == SegmentEnd(s, sep, i) && word == Trim(s[p..q])
    requires Closed(s, sep, p, begin, i, buf, buf')
    ensures Layout(s, sep, buf', starts, done + [word], q + 1, i + 1)
    ensures Idle(s, starts, done + [word], q + 1, i + 1)
  {
  }

  lemma ScanStarts(s: string, sep: char, allowEmpty: bool, buf: seq<char>)
    requires buf == s + ['\0']
    ensures Scanning(s, sep, allowEmpty, buf, [], [], 0, 0) && Idle(s, [], [], 0, 0)
  {
    assert s[0..] == s && buf[0..] == buf;
    var r := Split(s, sep, allowEmpty);
    assert r.Some? ==> [] + r.value == r.value;
  }

  lemma ScanSkipsSpace(
    s: string, sep: char, allowEmpty: bool, buf: seq<char>, starts: seq<nat>, done: seq<string>, p: nat, i: nat)
    requires Scanning(s, sep, allowEmpty, buf, starts, done, p, i) && Idle(s, starts, done, p, i)
    requires i < |s| && IsSpace(s[i]) && !IsSpace(sep) && !IsSpace(s[0])
    ensures Scanning(s, sep, allowEmpty, buf, starts, done, p, i + 1) && Idle(s, starts, done, p, i + 1)
  {
    assert s[p..i + 1] == s[p..i] + [s[i]];
  }

  lemma ScanBegins(
    s: string, sep: char, allowEmpty: bool, buf: seq<char>, starts: seq<nat>, done: seq<string>, p: nat, i: nat)
    requires Scanning(s, sep, allowEmpty, buf, starts, done, p, i) && Idle(s, starts, done, p, i)
    requires i < |s| && !IsSpace(s[i])
    ensures Open(s, sep, allowEmpty, buf, starts + [i], done, p, i, i)
  {
  }

  lemma ScanGrows(
    s: string, sep: char, allowEmpty: bool, buf: seq<char>, v: Scan, done: seq<string>, p: nat)
    requires v.hasBegin && LoopInvariant(s, sep, allowEmpty, buf, v, done, p) && v.i + 1 < |s| && s[v.i] != sep
    ensures LoopInvariant(s, sep, allowEmpty, buf, v.(i := v.i + 1), done, p)
  {
  }

  lemma ScanOverflows(
    s: string, sep: char, allowEmpty: bool, buf: seq<char>, starts: seq<nat>, done: seq<string>, p: nat, i: nat)
    requires Scanning(s, sep, allowEmpty, buf, starts, done, p, i) && Idle(s, starts, done, p, i)
    requires i < |s| && !IsSpace(s[i])
    ensures var r := Split(s, sep, allowEmpty); r.None? || |r.value| > |starts|
  {
  }

  lemma ScanEnds(
    s: string, sep: char, allowEmpty: bool, buf: seq<char>, starts: seq<nat>, done: seq<string>, p: nat)
    requires Scanning(s, sep, allowEmpty, buf, starts, done, p, |s|) && Idle(s, starts, done, p, |s|)
    ensures Split(s, sep, allowEmpty) == Some(done) && Placed(buf, starts, done, |s| + 1)
  {
    assert done + [] == done && starts[..|done|] == starts;
    PlacedStays(buf, buf, starts, done, p, |s| + 1);
    if p <= |s| {
      assert s[p..|s|] == s[p..];
      CutIs(s[p..], sep, |s| - p);
    }
  }

  datatype SplitError = InvalidArgument | ConfFail

  /**
   What the loop relies on, as values that the methods carry without looking inside: the
   invariant; that a segment is about to close; that its word is in place; that it is refused.
   */
  datatype Laws = Laws(
    inv: (seq<char>, Scan, seq<string>, nat) -> bool,
    closing: (nat, nat, nat, seq<char>) -> bool,
    closed: (nat, nat, nat, seq<char>, seq<char>, nat, string) -> bool,
    refused: (nat, nat, nat) -> bool)

  ghost function LawsOf(s: string, sep: char, allowEmpty: bool): Laws {
    Laws(
      (buf: seq<char>, v: Scan, done: seq<string>, p: nat) => LoopInvariant(s, sep, allowEmpty, buf, v, done, p),
      (p: nat, begin: nat, i: nat, buf: seq<char>) => Closing(s, sep, p, begin, i, buf),
      (p: nat, begin: nat, i: nat, buf: seq<char>, buf': seq<char>, q: nat, word: string) =>
        SegmentAt(s, sep, p, begin, i) && p <= |buf| && Closed(s, sep, p, begin, i, buf, buf') &&
        q == SegmentEnd(s, sep, i) && word == Trim(s[p..q]) && (allowEmpty || !Blank(s[p..q])),
      (p: nat, begin: nat, i: nat) =>
        SegmentAt(s, sep, p, begin, i) && !allowEmpty && Blank(s[p..SegmentEnd(s, sep, i)]))
  }

  lemma LoopStarts(s: string, sep: char, allowEmpty: bool, laws: Laws)
    requires laws == LawsOf(s, sep, allowEmpty)
    ensures laws.inv(s + ['\0'], Scan([], false, 0, 0), [], 0)
  {
    ScanStarts(s, sep, allowEmpty, s + ['\0']);
  }

  lemma LoopSkips(
    s: string, sep: char, allowEmpty: bool, laws: Laws, buf: seq<char>, v: Scan, done: seq<string>, p: nat)
    requires laws == LawsOf(s, sep, allowEmpty) && laws.inv(buf, v, done, p) && !v.hasBegin
    requires v.i < |s| && IsSpace(s[v.i]) && !IsSpace(sep) && !IsSpace(s[0])
    ensures laws.inv(buf, v.(i := v.i + 1), done, p)
  {
    ScanSkipsSpace(s, sep, allowEmpty, buf, v.starts, done, p, v.i);
  }

  /** A character that is not white space begins a token, for which there must be room. */
  lemma LoopBegins(
    s: string, sep: char, allowEmpty: bool, laws: Laws, buf: seq<char>, v: Scan, done: seq<string>, p: nat)
    requires laws == LawsOf(s, sep, allowEmpty) && laws.inv(buf, v, done, p) && !v.hasBegin
    requires v.i < |s| && !IsSpace(s[v.i])
    ensures laws.inv(buf, Scan(v.starts + [v.i], true, v.i, v.i), done, p)
    ensures v.starts != [] ==> v.starts[0] == 0
    ensures var r := Split(s, sep, allowEmpty); r.None? || |r.value| > |v.starts|
  {
    ScanBegins(s, sep, allowEmpty, buf, v.starts, done, p, v.i);
    ScanOverflows(s, sep, allowEmpty, buf, v.starts, done, p, v.i);
  }

  /** While a token is open the first pointer is the start of the copy, which is what gets freed on failure. */
  lemma LoopGoesOn(
    s: string, sep: char, allowEmpty: bool, laws: Laws, buf: seq<char>, v: Scan, done: seq<string>, p: nat)
    requires laws == LawsOf(s, sep, allowEmpty) && laws.inv(buf, v, done, p) && v.hasBegin
    ensures v.i < |s| && v.starts != [] && v.starts[0] == 0
    ensures s[v.i] == sep || v.i + 1 == |s| ==> laws.closing(p, v.begin, v.i, buf)
    ensures s[v.i] != sep && v.i + 1 < |s| ==> laws.inv(buf, v.(i := v.i + 1), done, p)
  {
    if s[v.i] != sep && v.i + 1 < |s| {
      ScanGrows(s, sep, allowEmpty, buf, v, done, p);
    }
  }

  lemma LoopRefuses(
    s: string, sep: char, allowEmpty: bool, laws: Laws, buf: seq<char>, v: Scan, done: seq<string>, p: nat)
    requires laws == LawsOf(s, sep, allowEmpty) && laws.inv(buf, v, done, p) && v.hasBegin && !IsSpace(sep)
    requires laws.refused(p, v.begin, v.i)
    ensures Split(s, sep, allowEmpty).None?
  {
    SegmentStops(s, sep, allowEmpty, done, p, v.begin, v.i, SegmentEnd(s, sep, v.i));
  }

  lemma ProgressOn(
    s: string, sep: char, allowEmpty: bool, laws: Laws, buf: seq<char>, buf': seq<char>, v: Scan,
    done: seq<string>, p: nat, q: nat, word: string)
    requires laws == LawsOf(s, sep, allowEmpty) && laws.inv(buf, v, done, p) && v.hasBegin && !IsSpace(sep)
    requires laws.closed(p, v.begin, v.i, buf, buf', q, word)
    ensures Progress(s, sep, allowEmpty, done + [word], q + 1)
  {
    SegmentGoesOn(s, sep, allowEmpty, done, p, v.begin, v.i, q, word);
  }

  lemma LayoutOn(
    s: string, sep: char, allowEmpty: bool, laws: Laws, buf: seq<char>, buf': seq<char>, v: Scan,
    done: seq<string>, p: nat, q: nat, word: string)
    requires laws == LawsOf(s, sep, allowEmpty) && laws.inv(buf, v, done, p) && v.hasBegin
    requires laws.closed(p, v.begin, v.i, buf, buf', q, word)
    ensures Layout(s, sep, buf', v.starts, done + [word], q + 1, v.i + 1)
    ensures Idle(s, v.starts, done + [word], q + 1, v.i + 1)
  {
    TokenCloses(s, sep, buf, buf', v.starts, done, p, v.i, v.begin, q, word);
  }

  lemma LoopCloses(
    s: string, sep: char, allowEmpty: bool, laws: Laws, buf: seq<char>, buf': seq<char>, v: Scan,
    done: seq<string>, p: nat, q: nat, word: string)
    requires laws == LawsOf(s, sep, allowEmpty) && laws.inv(buf, v, done, p) && v.hasBegin && !IsSpace(sep)
    requires laws.closed(p, v.begin, v.i, buf, buf', q, word)
    ensures laws.inv(buf', v.(hasBegin := false, i := v.i + 1), done + [word], q + 1)
  {
    ProgressOn(s, sep, allowEmpty, laws, buf, buf', v, done, p, q, word);
    LayoutOn(s, sep, allowEmpty, laws, buf, buf', v, done, p, q, word);
  }

  lemma LoopAfter(
    s: string, sep: char, allowEmpty: bool, laws: Laws, buf: seq<char>, buf': seq<char>, v: Scan,
    done: seq<string>, p: nat, q: nat, word: string, ok: bool)
    requires laws == LawsOf(s, sep, allowEmpty) && laws.inv(buf, v, done, p) && v.hasBegin && !IsSpace(sep)
    requires ok ==> laws.closed(p, v.begin, v.i, buf, buf', q, word)
    requires !ok ==> laws.refused(p, v.begin, v.i)
    ensures ok ==> laws.inv(buf', v.(hasBegin := false, i := v.i + 1), done + [word], q + 1)
    ensures !ok ==> Split(s, sep, allowEmpty).None?
  {
    if ok {
      LoopCloses(s, sep, allowEmpty, laws, buf, buf', v, done, p, q, word);
    } else {
      LoopRefuses(s, sep, allowEmpty, laws, buf, v, done, p);
    }
  }

  lemma LoopEnds(
    s: string, sep: char, allowEmpty: bool, laws: Laws, buf: seq<char>, v: Scan, done: seq<string>, p: nat)
    requires laws == LawsOf(s, sep, allowEmpty) && laws.inv(buf, v, done, p) && v.i >= |s|
    ensures Split(s, sep, allowEmpty) == Some(done) && Placed(buf, v.starts, done, |s| + 1)
  {
    ScanEnds(s, sep, allowEmpty, buf, v.starts, done, p);
  }

  method CloseWord(
    res: array<char>, sep: char, begin: nat, i: nat, allowEmpty: bool, ghost s: string, ghost p: nat, ghost laws: Laws)
    returns (ok: bool, ghost q: nat, ghost word: string)
    requires !IsSpace(sep) && '\0' !in s && laws == LawsOf(s, sep, allowEmpty)
    requires laws.closing(p, begin, i, res[..])
    modifies res
    ensures ok ==> laws.closed(p, begin, i, old(res[..]), res[..], q, word)
    ensures !ok ==> laws.refused(p, begin, i)
  {
    assert Closing(s, sep, p, begin, i, res[..]);
    q := SegmentEnd(s, sep, i);
    word := Trim(s[p..q]);
    ok := CloseToken(res, sep, begin, i, allowEmpty, s, p);
  }

  /** The end of a loop turn that closes a segment. */
  method CloseSegment(
    res: array<char>, sep: char, allowEmpty: bool, v: Scan,
    ghost s: string, ghost done: seq<string>, ghost p: nat, ghost laws: Laws)
    returns (ok: bool, w: Scan, ghost done': seq<string>, ghost p': nat)
    requires !IsSpace(sep) && '\0' !in s && v.i < |s| && (s[v.i] == sep || v.i + 1 == |s|)
    requires v.hasBegin && laws == LawsOf(s, sep, allowEmpty) && laws.inv(res[..], v, done, p)
    modifies res
    ensures w == v.(hasBegin := false, i := v.i + 1)
    ensures !ok ==> Split(s, sep, allowEmpty).None?
    ensures ok ==> laws.inv(res[..], w, done', p')
  {
    ghost var buf, q, word := res[..], 0, "";
    LoopGoesOn(s, sep, allowEmpty, laws, buf, v, done, p);
    ok, q, word := CloseWord(res, sep, v.begin, v.i, allowEmpty, s, p, laws);
    w, done', p' := v.(hasBegin := false, i := v.i + 1), done + [word], q + 1;
    LoopAfter(s, sep, allowEmpty, laws, buf, res[..], v, done, p, q, word, ok);
  }

  /** What makes the split fail: a forbidden empty token, or more tokens than there is room for. */
  ghost predicate Fails(s: string, sep: char, allowEmpty: bool, maxArrCnt: nat) {
    var r := Split(s, sep, allowEmpty);
    r.None? || |r.value| > maxArrCnt
  }

  /** One turn of the loop, at character v.i. */
  method Turn(
    res: array<char>, s: string, sep: char, allowEmpty: bool, maxArrCnt: nat, v: Scan,
    ghost done: seq<string>, ghost p: nat, ghost laws: Laws)
    returns (ok: bool, w: Scan, ghost done': seq<string>, ghost p': nat)
    requires !IsSpace(sep) && '\0' !in s && v.i < |s| && !IsSpace(s[0]) && |v.starts| <= maxArrCnt && maxArrCnt > 0
    requires laws == LawsOf(s, sep, allowEmpty) && laws.inv(res[..], v, done, p)
    modifies res
    ensures ok ==> laws.inv(res[..], w, done', p') && w.i == v.i + 1 && |w.starts| <= maxArrCnt
    ensures !ok ==> Fails(s, sep, allowEmpty, maxArrCnt) && w.starts != [] && w.starts[0] == 0
  {
    w, done', p' := v, done, p;
    if !v.hasBegin && IsSpace(s[v.i]) {
      LoopSkips(s, sep, allowEmpty, laws, res[..], v, done, p);
      return true, v.(i := v.i + 1), done, p;
    }
    if !v.hasBegin {
      LoopBegins(s, sep, allowEmpty, laws, res[..], v, done, p);
      if |v.starts| == maxArrCnt {
        return false, v, done, p;
      }
      w := Scan(v.starts + [v.i], true, v.i, v.i);
    }
    LoopGoesOn(s, sep, allowEmpty, laws, res[..], w, done, p);
    if w.i + 1 != |s| && s[w.i] != sep {
      return true, w.(i := w.i + 1), done, p;
    }
    ok, w, done', p' := CloseSegment(res, sep, allowEmpty, w, s, done, p, laws);
  }

  /** The split loop on a string without leading white space. */
  method SplitCopy(s: string, sep: char, allowEmpty: bool, maxArrCnt: nat)
    returns (ok: bool, res: array<char>, starts: seq<nat>, ghost tokens: seq<string>)
    requires !IsSpace(sep) && '\0' !in s && maxArrCnt > 0 && (s != [] ==> !IsSpace(s[0]))
    ensures fresh(res)
    ensures ok <==> !Fails(s, sep, allowEmpty, maxArrCnt)
    ensures ok ==> Split(s, sep, allowEmpty) == Some(tokens) && Placed(res[..], starts, tokens, |s| + 1)
    ensures !ok ==> starts != [] && starts[0] == 0
  {
    res := new char[|s| + 1](j requires 0 <= j <= |s| => if j < |s| then s[j] else '\0');
    var v := Scan([], false, 0, 0);
    tokens := [];
    ghost var p, laws := 0, LawsOf(s, sep, allowEmpty);
    assert res[..] == s + ['\0'];
    LoopStarts(s, sep, allowEmpty, laws);
    while v.i < |s|
      invariant v.i <= |s| && fresh(res) && |v.starts| <= maxArrCnt
      invariant laws.inv(res[..], v, tokens, p)
    {
      ok, v, tokens, p := Turn(res, s, sep, allowEmpty, maxArrCnt, v, tokens, p, laws);
      if !ok {
        return false, res, v.starts, tokens;
      }
    }
    LoopEnds(s, sep, allowEmpty, laws, res[..], v, tokens, p);
    return true, res, v.starts, tokens;
  }

  lemma {:induction false} TrimLeftIsSuffix(s: string)
    ensures TrimLeft(s) != [] ==> !IsSpace(TrimLeft(s)[0])
    ensures forall c :: c in TrimLeft(s) ==> c in s
  {
    if s != [] && IsSpace(s[0]) {
      TrimLeftIsSuffix(s[1..]);
    }
  }

  /**
   HITLS_APP_SplitString.  It succeeds exactly when no segment but possibly the last is
   blank, unless empty ones are allowed, and the tokens fit; the strings at the returned
   pointers are then the trimmed segments, without a blank last one.
   */
  method SplitString(str: string, sep: char, allowEmpty: bool, maxArrCnt: nat)
    returns (r: Result<seq<string>, SplitError>)
    requires '\0' !in str
    ensures str == [] || IsSpace(sep) || maxArrCnt == 0 ==> r == Err(InvalidArgument)
    ensures !(str == [] || IsSpace(sep) || maxArrCnt == 0) ==>
              var segs := Segments(str, sep);
              r == if Wellformed(segs, allowEmpty) && |TokensOf(segs)| <= maxArrCnt then Ok(TokensOf(segs))
                   else Err(ConfFail)
  {
    if str == [] || IsSpace(sep) || maxArrCnt == 0 {
      return Err(InvalidArgument);
    }
    var tmp := TrimLeft(str);
    TrimLeftIsSuffix(str);
    LeadingSpace(str, sep, allowEmpty);
    SplitIsTokens(str, sep, allowEmpty);
    var ok, res, starts, tokens := SplitCopy(tmp, sep, allowEmpty, maxArrCnt);
    if !ok {
      return Err(ConfFail);
    }
    var strArr := ReadTokens(res, starts, tokens);
    return Ok(strArr);
  }

  /** What the caller reads at the returned pointers. */
  method ReadTokens(res: array<char>, starts: seq<nat>, ghost tokens: seq<string>) returns (strArr: seq<string>)
    requires Placed(res[..], starts, tokens, res.Length)
    ensures strArr == tokens
  {
    strArr := [];
    for k := 0 to |starts|
      invariant strArr == tokens[..k]
    {
      assert TokenAt(res[..], starts[k], tokens[k], res.Length);
      ghost var b, n, buf := starts[k], |tokens[k]|, res[..];
      assert res[b..] == buf[b..] && buf[b..][..n] == buf[b..b + n] && buf[b..][n] == buf[b + n];
      CStringIs(res[b..], tokens[k]);
      strArr := strArr + [CString(res[starts[k]..])];
    }
  }
}
