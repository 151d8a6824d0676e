/** Comma-separated uuid lists of apps/src/app_keymgmt.c: the scanner and the splitter. */
module Uuid {
  import opened Wrappers

  /** APP_KEYMGMT_UUID_STR_SIZE - 1 */
  const UUID_CHARS: nat := 64

  predicate IsUuidHexChar(c: char) {
    '0' <= c <= '9' || 'a' <= c <= 'f' || 'A' <= c <= 'F'
  }

  predicate IsUuid(w: string) {
    |w| == UUID_CHARS && forall i :: 0 <= i < |w| ==> IsUuidHexChar(w[i])
  }

  predicate AllUuids(words: seq<string>) {
    forall i :: 0 <= i < |words| ==> IsUuid(words[i])
  }

  function Join(words: seq<string>): string
    requires words != []
  {
    if |words| == 1 then words[0] else words[0] + "," + Join(words[1..])
  }

  /** A non-empty list of uuids joined by commas. */
  ghost predicate IsUuidList(s: string) {
    exists words: seq<string> :: words != [] && AllUuids(words) && s == Join(words)
  }

  /** What the scanner accepts from the rest of the string, `len` characters into a word. */
  predicate Accepts(s: string, len: nat)
    decreases |s|
  {
    if s == [] then len == UUID_CHARS
    else if s[0] == ',' then len == UUID_CHARS && Accepts(s[1..], 0)
    else IsUuidHexChar(s[0]) && len < UUID_CHARS && Accepts(s[1..], len + 1)
  }

  lemma ConsWord(word: string, rest: seq<string>)
    requires IsUuid(word) && rest != [] && AllUuids(rest)
    ensures AllUuids([word] + rest) && Join([word] + rest) == word + ("," + Join(rest))
  {
    assert ([word] + rest)[1..] == rest;
    assert word + "," + Join(rest) == word + ("," + Join(rest));
  }

  lemma {:induction false} AcceptedIsList(word: string, s: string) returns (words: seq<string>)
    requires |word| <= UUID_CHARS && (forall i :: 0 <= i < |word| ==> IsUuidHexChar(word[i]))
    requires Accepts(s, |word|)
    ensures words != [] && AllUuids(words) && word + s == Join(words)
    decreases |s|
  {
    if s == [] {
      words := [word];
      assert word + s == word;
    } else if s[0] == ',' {
      var rest := AcceptedIsList("", s[1..]);
      words := [word] + rest;
      ConsWord(word, rest);
      assert "" + s[1..] == s[1..] && s == "," + s[1..];
    } else {
      words := AcceptedIsList(word + [s[0]], s[1..]);
      assert word + s == word + [s[0]] + s[1..];
    }
  }

  lemma {:induction false} WordIsAccepted(word: string, len: nat, s: string)
    requires len + |word| == UUID_CHARS && forall i :: 0 <= i < |word| ==> IsUuidHexChar(word[i])
    requires Accepts(s, UUID_CHARS)
    ensures Accepts(word + s, len)
    decreases |word|
  {
    if word == [] {
      assert word + s == s;
    } else {
      WordIsAccepted(word[1..], len + 1, s);
      assert (word + s)[1..] == word[1..] + s;
    }
  }

  lemma {:induction false} ListIsAccepted(words: seq<string>)
    requires words != [] && AllUuids(words)
    ensures Accepts(Join(words), 0)
    decreases |words|
  {
    if |words| == 1 {
      WordIsAccepted(words[0], 0, []);
      assert words[0] + [] == words[0];
    } else {
      ListIsAccepted(words[1..]);
      assert ("," + Join(words[1..]))[1..] == Join(words[1..]);
      WordIsAccepted(words[0], 0, "," + Join(words[1..]));
      assert words[0] + ("," + Join(words[1..])) == Join(words);
    }
  }

  lemma ScannerIsExact(s: string)
    ensures Accepts(s, 0) <==> IsUuidList(s)
  {
    if Accepts(s, 0) {
      var words := AcceptedIsList("", s);
      assert "" + s == s;
    }
    if IsUuidList(s) {
      var words: seq<string> :| words != [] && AllUuids(words) && s == Join(words);
      ListIsAccepted(words);
    }
  }

  /** IsValidKeyUuidList accepts exactly the comma-joined non-empty lists of uuids. */
  method IsValidKeyUuidList(s: string) returns (valid: bool)
    ensures valid <==> IsUuidList(s)
  {
    ScannerIsExact(s);
    if s == [] {
      return false;
    }
    var cur, uuidLen := 0, 0;
    while cur < |s|
      invariant cur <= |s| && uuidLen <= UUID_CHARS
      invariant Accepts(s, 0) <==> Accepts(s[cur..], uuidLen)
    {
      if s[cur] == ',' {
        if uuidLen != UUID_CHARS {
          return false;
        }
        uuidLen := 0;
      } else {
        if !IsUuidHexChar(s[cur]) || uuidLen >= UUID_CHARS {
          return false;
        }
        uuidLen := uuidLen + 1;
      }
      cur := cur + 1;
    }
    return uuidLen == UUID_CHARS;
  }

  // ----------------------------------------------------------------- splitting

  lemma JoinStarts(words: seq<string>)
    requires words != [] && AllUuids(words)
    ensures |Join(words)| >= UUID_CHARS && Join(words)[..UUID_CHARS] == words[0]
    ensures |words| == 1 ==> |Join(words)| == UUID_CHARS
    ensures |words| > 1 ==> |Join(words)| > UUID_CHARS + 1 && Join(words)[UUID_CHARS] == ',' &&
                            Join(words)[UUID_CHARS + 1..] == Join(words[1..])
  {
  }

  /** A uuid list is the join of one list of words only. */
  lemma {:induction false} JoinIsInjective(a: seq<string>, b: seq<string>)
    requires a != [] && b != [] && AllUuids(a) && AllUuids(b) && Join(a) == Join(b)
    ensures a == b
    decreases |a|
  {
    JoinStarts(a);
    JoinStarts(b);
    if |a| > 1 {
      JoinIsInjective(a[1..], b[1..]);
      assert a == [a[0]] + a[1..] && b == [b[0]] + b[1..];
    }
  }

  lemma TokenEnds(words: seq<string>, end: nat)
    requires words != [] && AllUuids(words) && end <= |Join(words)|
    requires forall i :: 0 <= i < end ==> Join(words)[i] != ','
    requires end < |Join(words)| ==> Join(words)[end] == ','
    ensures end == UUID_CHARS
  {
    JoinStarts(words);
    assert forall i :: 0 <= i < UUID_CHARS ==> Join(words)[i] == Join(words)[..UUID_CHARS][i] == words[0][i];
  }

  lemma FirstCharIsHex(words: seq<string>)
    requires words != [] && AllUuids(words)
    ensures |Join(words)| > 0 && IsUuidHexChar(Join(words)[0])
  {
  }

  /** One call of strtok_r from position `from`: skip separators, then run to the next one. */
  method NextToken(s: string, sep: char, from: nat) returns (begin: nat, end: nat)
    requires from <= |s|
    ensures from <= begin <= end <= |s|
    ensures forall i :: from <= i < begin ==> s[i] == sep
    ensures forall i :: begin <= i < end ==> s[i] != sep
    ensures end < |s| ==> s[end] == sep && begin < end
    ensures from < |s| && s[from] != sep ==> begin == from
  {
    begin := from;
    while begin < |s| && s[begin] == sep
      invariant from <= begin <= |s|
      invariant forall i :: from <= i < begin ==> s[i] == sep
    {
      begin := begin + 1;
    }
    end := begin;
    while end < |s| && s[end] != sep
      invariant begin <= end <= |s|
      invariant forall i :: begin <= i < end ==> s[i] != sep
    {
      end := end + 1;
    }
  }

  lemma TokenSlice(uuid: string, next: nat, all: string, end: nat)
    requires next <= end <= |uuid| && uuid[next..] == all
    requires forall i :: next <= i < end ==> uuid[i] != ','
    requires end < |uuid| ==> uuid[end] == ','
    ensures |all| == |uuid| - next && uuid[next..end] == all[..end - next]
    ensures forall i :: 0 <= i < end - next ==> all[i] != ','
    ensures end < |uuid| ==> all[end - next] == ',' && uuid[end + 1..] == all[end - next + 1..]
  {
  }

  /** The token found at the start of the rest of a list is its first word. */
  lemma TokenIsWord(uuid: string, next: nat, rest: seq<string>, end: nat)
    requires rest != [] && AllUuids(rest) && next <= end <= |uuid| && uuid[next..] == Join(rest)
    requires forall i :: next <= i < end ==> uuid[i] != ','
    requires end < |uuid| ==> uuid[end] == ','
    ensures uuid[next..end] == rest[0] && (end == |uuid| <==> |rest| == 1)
    ensures |rest| > 1 ==> end + 1 < |uuid| && uuid[end + 1..] == Join(rest[1..])
  {
    TokenSlice(uuid, next, Join(rest), end);
    TokenEnds(rest, end - next);
    JoinStarts(rest);
  }

  /** The first words have been split off; the rest of the list starts at `next`. */
  ghost predicate Splitting(uuid: string, words: seq<string>, list: seq<string>, next: nat) {
    next <= |uuid| && |list| <= |words| && list == words[..|list|] && (next == |uuid| <==> |list| == |words|) &&
    (|list| < |words| ==> uuid[next..] == Join(words[|list|..]))
  }

  lemma NextIsWord(uuid: string, words: seq<string>, list: seq<string>, next: nat)
    requires Splitting(uuid, words, list, next) && AllUuids(words) && next < |uuid|
    ensures uuid[next] != ','
  {
    FirstCharIsHex(words[|list|..]);
    assert uuid[next] == uuid[next..][0];
  }

  lemma TokenIsNext(uuid: string, words: seq<string>, list: seq<string>, next: nat, end: nat)
    requires Splitting(uuid, words, list, next) && AllUuids(words) && next < |uuid|
    requires next <= end <= |uuid| && (forall i :: next <= i < end ==> uuid[i] != ',')
    requires end < |uuid| ==> uuid[end] == ','
    ensures Splitting(uuid, words, list + [uuid[next..end]], if end < |uuid| then end + 1 else end)
  {
    var rest := words[|list|..];
    TokenIsWord(uuid, next, rest, end);
    assert words[..|list| + 1] == list + [rest[0]] && words[|list| + 1..] == rest[1..];
  }

  /** SplitUuidString: strtok_r on commas returns exactly the words of a valid list. */
  method SplitUuidString(uuid: string) returns (r: Result<seq<string>, ()>)
    ensures r.Ok? <==> IsUuidList(uuid)
    ensures r.Ok? ==> r.value != [] && AllUuids(r.value) && Join(r.value) == uuid
  {
    var valid := IsValidKeyUuidList(uuid);
    if !valid {
      return Err(());
    }
    ghost var words: seq<string> :| words != [] && AllUuids(words) && uuid == Join(words);
    var list: seq<string>, next := [], 0;
    while next < |uuid|
      invariant Splitting(uuid, words, list, next)
    {
      NextIsWord(uuid, words, list, next);
      var begin, end := NextToken(uuid, ',', next);
      TokenIsNext(uuid, words, list, next, end);
      list := list + [uuid[begin..end]];
      next := if end < |uuid| then end + 1 else end;
    }
    assert list == words;
    return Ok(list);
  }
}
