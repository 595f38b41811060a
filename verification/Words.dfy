/** The inline tokeniser finds the one way to read a line as blank-separated words. */
module Words {
  import opened Bytes
  import opened Resp

  ghost predicate AllBlank(s: bytes) { forall i :: 0 <= i < |s| ==> IsBlank(s[i]) }

  ghost predicate IsWord(w: bytes) { w != [] && forall i :: 0 <= i < |w| ==> !IsBlank(w[i]) }

  /** gap, word, gap, word, ..., gap. */
  function Weave(gaps: seq<bytes>, words: seq<bytes>): bytes
    requires |gaps| == |words| + 1
  {
    if words == [] then gaps[0] else gaps[0] + words[0] + Weave(gaps[1..], words[1..])
  }

  /** Blank gaps around the words, non-empty between two of them. */
  ghost predicate Spells(line: bytes, words: seq<bytes>, gaps: seq<bytes>) {
    && |gaps| == |words| + 1
    && (forall i :: 0 <= i < |gaps| ==> AllBlank(gaps[i]))
    && (forall i :: 0 < i < |words| ==> gaps[i] != [])
    && (forall i :: 0 <= i < |words| ==> IsWord(words[i]))
    && line == Weave(gaps, words)
  }

  lemma {:induction false} LeadingWord(line: bytes, w: bytes, rest: bytes)
    requires line == w + rest && IsWord(w) && (rest == [] || IsBlank(rest[0]))
    ensures line != [] && !IsBlank(line[0]) && WordLength(line) == |w| && line[|w|..] == rest && line[..|w|] == w
  {
    assert line[0] == w[0];
    assert forall i :: 0 <= i < |w| ==> line[i] == w[i];
    assert rest != [] ==> line[|w|] == rest[0];
  }

  lemma {:induction false} SkipGap(gap: bytes, line: bytes)
    requires AllBlank(gap)
    ensures Words(gap + line) == Words(line)
    decreases |gap|
  {
    if gap == [] {
      assert gap + line == line;
    } else {
      assert (gap + line)[0] == gap[0] && (gap + line)[1..] == gap[1..] + line;
      SkipGap(gap[1..], line);
    }
  }

  lemma {:induction false} SpelledIsFound(line: bytes, words: seq<bytes>, gaps: seq<bytes>)
    requires Spells(line, words, gaps)
    ensures Words(line) == words
    decreases |words|
  {
    if words == [] {
      assert AllBlank(gaps[0]) && line + [] == line;
      SkipGap(line, []);
    } else {
      var rest := Weave(gaps[1..], words[1..]);
      assert line == gaps[0] + (words[0] + rest);
      assert AllBlank(gaps[0]);
      SkipGap(gaps[0], words[0] + rest);
      assert AllBlank(gaps[1]) && IsWord(words[0]);
      LeadingWord(words[0] + rest, words[0], rest);
      forall i | 0 <= i < |gaps[1..]| ensures AllBlank(gaps[1..][i]) {
        assert gaps[1..][i] == gaps[i + 1];
      }
      forall i | 0 <= i < |words[1..]| ensures IsWord(words[1..][i]) && (i > 0 ==> gaps[1..][i] != []) {
        assert words[1..][i] == words[i + 1];
      }
      SpelledIsFound(rest, words[1..], gaps[1..]);
      assert [words[0]] + words[1..] == words;
    }
  }

  lemma WidenGap(b: byte, line: bytes, words: seq<bytes>, gaps: seq<bytes>)
    requires IsBlank(b) && Spells(line, words, gaps)
    ensures Spells([b] + line, words, gaps[0 := [b] + gaps[0]])
  {
    var wide := gaps[0 := [b] + gaps[0]];
    assert AllBlank(gaps[0]);
    assert wide[1..] == gaps[1..];
    assert [b] + line == Weave(wide, words);
  }

  lemma AddWord(w: bytes, line: bytes, words: seq<bytes>, gaps: seq<bytes>)
    requires IsWord(w) && Spells(line, words, gaps) && (words != [] ==> gaps[0] != [])
    ensures Spells(w + line, [w] + words, [[]] + gaps)
  {
    var wide, all := [[]] + gaps, [w] + words;
    assert wide[1..] == gaps && all[1..] == words;
    assert [] + w + line == w + line;
    assert forall i :: 0 < i < |all| ==> all[i] == words[i - 1] && wide[i] == gaps[i - 1];
    assert forall i :: 0 < i < |wide| ==> wide[i] == gaps[i - 1];
  }

  lemma {:induction false} FoundIsSpelled(line: bytes) returns (gaps: seq<bytes>)
    ensures Spells(line, Words(line), gaps)
    ensures line != [] && IsBlank(line[0]) ==> gaps[0] != []
    decreases |line|
  {
    if line == [] {
      gaps := [[]];
    } else if IsBlank(line[0]) {
      var more := FoundIsSpelled(line[1..]);
      WidenGap(line[0], line[1..], Words(line[1..]), more);
      gaps := more[0 := [line[0]] + more[0]];
      assert line == [line[0]] + line[1..];
    } else {
      var n := WordLength(line);
      var more := FoundIsSpelled(line[n..]);
      AddWord(line[..n], line[n..], Words(line[n..]), more);
      gaps := [[]] + more;
      assert line == line[..n] + line[n..];
    }
  }

  /** Words(line) is the only list of words the line spells, and it does spell it. */
  lemma WordsAreTheReading(line: bytes, words: seq<bytes>)
    ensures Words(line) == words <==> exists gaps :: Spells(line, words, gaps)
  {
    if Words(line) == words {
      var gaps := FoundIsSpelled(line);
    }
    if gaps :| Spells(line, words, gaps) {
      SpelledIsFound(line, words, gaps);
    }
  }
}
