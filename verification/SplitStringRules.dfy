/** What the specification of the splitter says, in other words. */
module SplitStringRules {
  import opened Wrappers
  import opened Strings
  import opened SplitString

  /** Segments with separators between them. */
  function Rejoined(segs: seq<string>, sep: char): string
    requires segs != []
  {
    if |segs| == 1 then segs[0] else segs[0] + [sep] + Rejoined(segs[1..], sep)
  }

  /** The segments hold no separator and give back the string when joined by it. */
  lemma {:induction false} SegmentsRule(s: string, sep: char)
    ensures Rejoined(Segments(s, sep), sep) == s
    ensures forall i :: 0 <= i < |Segments(s, sep)| ==> sep !in Segments(s, sep)[i]
  {
    if s != [] {
      var rest, segs := Segments(s[1..], sep), Segments(s, sep);
      SegmentsRule(s[1..], sep);
      if s[0] == sep {
        assert segs[1..] == rest;
        assert [] + [sep] + s[1..] == s;
      } else {
        assert segs[1..] == rest[1..];
        RejoinedHead(s[0], rest, segs, sep);
        assert [s[0]] + s[1..] == s;
      }
    }
  }

  lemma RejoinedHead(c: char, rest: seq<string>, segs: seq<string>, sep: char)
    requires rest != [] && segs == [[c] + rest[0]] + rest[1..]
    ensures Rejoined(segs, sep) == [c] + Rejoined(rest, sep)
  {
    assert segs[1..] == rest[1..];
    if |rest| > 1 {
      var tail := Rejoined(rest[1..], sep);
      assert [c] + rest[0] + [sep] + tail == [c] + (rest[0] + [sep] + tail);
    }
  }

  lemma {:induction false} TrimLeftRule(s: string) returns (a: nat)
    ensures a <= |s| && TrimLeft(s) == s[a..] && Blank(s[..a]) && (a < |s| ==> !IsSpace(s[a]))
  {
    if s != [] && IsSpace(s[0]) {
      var b := TrimLeftRule(s[1..]);
      a := b + 1;
      var head, tail := s[..a], s[1..][..b];
      assert forall i :: 0 < i < a ==> head[i] == tail[i - 1];
    } else {
      a := 0;
    }
  }

  lemma {:induction false} TrimRightRule(s: string) returns (b: nat)
    ensures b <= |s| && TrimRight(s) == s[..b] && Blank(s[b..]) && (b > 0 ==> !IsSpace(s[b - 1]))
  {
    if s != [] && IsSpace(s[|s| - 1]) {
      var front := s[..|s| - 1];
      b := TrimRightRule(front);
      assert front[..b] == s[..b];
      var rest := s[b..];
      assert forall i :: 0 <= i < |rest| - 1 ==> rest[i] == front[b..][i];
    } else {
      b := |s|;
      assert s[..b] == s;
    }
  }

  /** Trimming cuts off white space on both sides, all of it, and nothing else. */
  lemma TrimRule(s: string) returns (a: nat, b: nat)
    ensures a <= b <= |s| && Trim(s) == s[a..b] && Blank(s[..a]) && Blank(s[b..])
    ensures a < b ==> !IsSpace(s[a]) && !IsSpace(s[b - 1])
    ensures Trim(s) == [] <==> forall i :: 0 <= i < |s| ==> IsSpace(s[i])
  {
    a := TrimLeftRule(s);
    var t := s[a..];
    var n := TrimRightRule(t);
    b := a + n;
    assert t[..n] == s[a..b] && t[n..] == s[b..];
    if a < b {
      assert t[n - 1] == s[b - 1];
    } else {
      var head := s[..a];
      assert forall i :: 0 <= i < a ==> s[i] == head[i];
    }
  }

  /** One token for each segment but a blank last one: the segment, trimmed. */
  lemma TokensRule(segs: seq<string>)
    requires segs != []
    ensures var n := |segs| - 1;
            var blank := forall i :: 0 <= i < |segs[n]| ==> IsSpace(segs[n][i]);
            |TokensOf(segs)| == (if blank then n else n + 1) &&
            forall i :: 0 <= i < |TokensOf(segs)| ==> TokensOf(segs)[i] == Trim(segs[i])
  {
  }

  predicate AllSpace(w: string) {
    forall j :: 0 <= j < |w| ==> IsSpace(w[j])
  }

  /** A list is refused exactly when empty tokens are forbidden and a segment before the last is all white space. */
  lemma WellformedRule(segs: seq<string>, allowEmpty: bool)
    ensures !Wellformed(segs, allowEmpty) <==> !allowEmpty && exists i :: 0 <= i < |segs| - 1 && AllSpace(segs[i])
  {
    assert forall w: string :: Blank(w) <==> AllSpace(w);
  }
}
