/** Uuid lists by position: 64 hex digits, a comma, 64 hex digits, and so on. */
module UuidRules {
  import opened Wrappers
  import opened Uuid

  /** What belongs at position i of a list. */
  predicate BelongsAt(c: char, i: nat) {
    if i % 65 == 64 then c == ',' else c in "0123456789abcdefABCDEF"
  }

  predicate ListByPosition(s: string) {
    |s| % 65 == 64 && forall i :: 0 <= i < |s| ==> BelongsAt(s[i], i)
  }

  lemma HexChars(c: char)
    ensures IsUuidHexChar(c) <==> c in "0123456789abcdefABCDEF"
  {
  }

  lemma WordRule(w: string)
    ensures IsUuid(w) <==> |w| == 64 && forall i :: 0 <= i < |w| ==> w[i] in "0123456789abcdefABCDEF"
  {
    forall c: char ensures IsUuidHexChar(c) <==> c in "0123456789abcdefABCDEF" {
      HexChars(c);
    }
  }

  /** Word j of a list is at 65 j, with commas in between. */
  lemma {:induction false} JoinPositions(words: seq<string>, j: nat)
    requires words != [] && AllUuids(words) && j < |words|
    ensures |Join(words)| == 65 * |words| - 1 && Join(words)[65 * j..65 * j + 64] == words[j]
    ensures j + 1 < |words| ==> Join(words)[65 * j + 64] == ','
    decreases |words|
  {
    JoinStarts(words);
    if |words| > 1 {
      var all, tail := Join(words), Join(words[1..]);
      var k := if j > 0 then j - 1 else 0;
      JoinPositions(words[1..], k);
      assert all[65..] == tail;
      if j > 0 {
        assert tail[65 * k..65 * k + 64] == all[65 * j..65 * j + 64];
        assert j + 1 < |words| ==> tail[65 * k + 64] == all[65 * j + 64];
      }
    }
  }

  lemma PlaceInWord(j: nat, k: nat)
    requires k < 65
    ensures (65 * j + k) % 65 == k && (65 * j + k) / 65 == j
  {
  }

  lemma CharBelongs(words: seq<string>, j: nat, k: nat)
    requires words != [] && AllUuids(words) && j < |words| && k < 65 && (k == 64 ==> j + 1 < |words|)
    ensures 65 * j + k < |Join(words)| && BelongsAt(Join(words)[65 * j + k], 65 * j + k)
  {
    JoinPositions(words, j);
    WordRule(words[j]);
    PlaceInWord(j, k);
    var s, at := Join(words), 65 * j;
    if k < 64 {
      assert s[at + k] == s[at..at + 64][k];
    }
  }

  lemma JoinByPosition(words: seq<string>)
    requires words != [] && AllUuids(words)
    ensures ListByPosition(Join(words))
  {
    var s, n := Join(words), |words| - 1;
    JoinPositions(words, 0);
    assert |s| == 65 * n + 64;
    PlaceInWord(n, 64);
    forall i | 0 <= i < |s| ensures BelongsAt(s[i], i) {
      var j, k := i / 65, i % 65;
      assert i == 65 * j + k;
      CharBelongs(words, j, k);
    }
  }

  lemma TailByPosition(s: string)
    requires ListByPosition(s) && |s| > 64
    ensures |s| >= 129 && ListByPosition(s[65..])
  {
    forall i | 0 <= i < |s| - 65 ensures BelongsAt(s[65..][i], i) {
      assert BelongsAt(s[i + 65], i + 65) && (i + 65) % 65 == i % 65;
    }
  }

  lemma {:induction false} PositionsAreWords(s: string) returns (words: seq<string>)
    requires ListByPosition(s)
    ensures words != [] && AllUuids(words) && Join(words) == s
    decreases |s|
  {
    var first := s[..64];
    forall i | 0 <= i < 64 ensures first[i] in "0123456789abcdefABCDEF" {
      assert BelongsAt(s[i], i);
    }
    WordRule(first);
    if |s| == 64 {
      words := [first];
      assert first == s;
    } else {
      var tail := s[65..];
      TailByPosition(s);
      var rest := PositionsAreWords(tail);
      words := [first] + rest;
      ConsWord(first, rest);
      assert BelongsAt(s[64], 64);
      assert s == first + ("," + tail);
    }
  }

  /** The lists that the scanner accepts, by position. */
  lemma ListRule(s: string)
    ensures IsUuidList(s) <==> ListByPosition(s)
  {
    if IsUuidList(s) {
      var words: seq<string> :| words != [] && AllUuids(words) && s == Join(words);
      JoinByPosition(words);
    }
    if ListByPosition(s) {
      var words := PositionsAreWords(s);
    }
  }
}
