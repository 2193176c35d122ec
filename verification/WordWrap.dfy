/** Greedy word wrap, and why no other breaking of the same words is shorter. */
module WordWrap {
  import opened Prelude

  // ----- words and lines -----

  predicate IsWord(w: string) { w != "" && forall c <- w :: !IsWhitespace(c) }

  /** The text up to the first white space, and what follows it. */
  function FirstChunk(text: string): (r: (string, string))
    ensures forall c <- r.0 :: !IsWhitespace(c)
    ensures text != "" ==> |r.1| < |text|
  {
    if text == "" then ("", "")
    else if IsWhitespace(text[0]) then ("", text[1..])
    else
      var (chunk, rest) := FirstChunk(text[1..]);
      ([text[0]] + chunk, rest)
  }

  /** The words of a text: its longest pieces free of white space. */
  function Words(text: string): (r: seq<string>)
    ensures forall w <- r :: IsWord(w)
    decreases |text|
  {
    if text == "" then []
    else
      var (chunk, rest) := FirstChunk(text);
      (if chunk == "" then [] else [chunk]) + Words(rest)
  }

  /** Words on one line, a space between each two. */
  function Join(words: seq<string>): string {
    if words == [] then ""
    else if |words| == 1 then words[0]
    else Join(words[..|words| - 1]) + " " + words[|words| - 1]
  }

  function Joined(lines: seq<seq<string>>): seq<string> {
    seq(|lines|, i requires 0 <= i < |lines| => Join(lines[i]))
  }

  ghost function Flatten(lines: seq<seq<string>>): seq<string> {
    if lines == [] then [] else lines[0] + Flatten(lines[1..])
  }

  /** A line may hold any words that fit, and a word that fits no line may stand alone. */
  ghost predicate Allowed(line: seq<string>, width: nat) { line != [] && (|line| == 1 || |Join(line)| <= width) }

  ghost predicate Breaking(lines: seq<seq<string>>, words: seq<string>, width: nat) {
    Flatten(lines) == words && forall line <- lines :: Allowed(line, width)
  }

  predicate Fits(line: seq<string>, word: string, width: nat) { |Join(line)| + 1 + |word| <= width }

  /** The lines of a greedy breaking: a word joins the last line if it fits there and opens a line if it does not. */
  function GreedyLines(words: seq<string>, width: nat): (r: seq<seq<string>>)
    ensures r == [] <==> words == []
    ensures r != [] ==> r[|r| - 1] != []
  {
    if words == [] then []
    else
      var before, word := GreedyLines(words[..|words| - 1], width), words[|words| - 1];
      if before == [] then [[word]]
      else
        var line := before[|before| - 1];
        if Fits(line, word, width) then before[..|before| - 1] + [line + [word]] else before + [[word]]
  }

  method Wrap(text: string, width: nat) returns (lines: seq<string>)
    ensures var broken := GreedyLines(Words(text), width);
      lines == if broken == [] then [""] else Joined(broken)
  {
    hide Words, IsWhitespace;
    var words := Words(text);
    lines := [];
    var current := "";
    ghost var front: seq<seq<string>>, line: seq<string> := [], [];
    for i := 0 to |words|
      invariant i == 0 ==> lines == [] && current == "" && front == []
      invariant i > 0 ==> line != [] && current == Join(line) != "" && GreedyLines(words[..i], width) == front + [line]
      invariant lines == Joined(front)
    {
      var word := words[i];
      assert IsWord(word);
      assert words[..i + 1][..i] == words[..i];
      if current == "" {
        current := current + word;
        line := [word];
      } else if |current| + 1 + |word| <= width {
        JoinOneMore(line, word);
        current := current + " ";
        current := current + word;
        line := line + [word];
      } else {
        JoinedAppends(front, line);
        lines := lines + [current];
        current := "" + word;
        front, line := front + [line], [word];
      }
    }
    assert words[..|words|] == words;
    if current != "" {
      JoinedAppends(front, line);
      lines := lines + [current];
    }
    if lines == [] {
      lines := lines + [""];
    }
  }

  lemma JoinedAppends(lines: seq<seq<string>>, line: seq<string>)
    ensures Joined(lines + [line]) == Joined(lines) + [Join(line)]
  {
  }

  lemma JoinOneMore(line: seq<string>, word: string)
    requires line != []
    ensures Join(line + [word]) == Join(line) + " " + word
  {
    assert (line + [word])[..|line|] == line;
  }

  // ----- the words survive -----

  lemma NothingToFlatten()
    ensures Flatten([]) == []
  {
  }

  lemma {:induction false} FlattenAppends(lines: seq<seq<string>>, line: seq<string>)
    ensures Flatten(lines + [line]) == Flatten(lines) + line
  {
    if lines == [] {
      assert [line][1..] == [];
    } else {
      assert (lines + [line])[1..] == lines[1..] + [line];
      FlattenAppends(lines[1..], line);
    }
  }

  /** The greedy lines break the words: none is lost, repeated or moved, and every line is allowed. */
  lemma {:induction false} GreedyBreaks(words: seq<string>, width: nat)
    ensures Breaking(GreedyLines(words, width), words, width)
  {
    hide Join, Flatten;
    NothingToFlatten();
    if words != [] {
      var before, word := GreedyLines(words[..|words| - 1], width), words[|words| - 1];
      GreedyBreaks(words[..|words| - 1], width);
      assert words == words[..|words| - 1] + [word];
      if before != [] {
        var front, line := before[..|before| - 1], before[|before| - 1];
        assert before == front + [line];
        FlattenAppends(front, line);
        FlattenAppends(front, line + [word]);
        FlattenAppends(before, [word]);
        JoinOneMore(line, word);
      } else {
        FlattenAppends([], [word]);
        assert [] + [[word]] == [[word]] && [] + [word] == words;
      }
    }
  }

  /** A word too wide for any line has one to itself; every other line keeps to the width. */
  lemma OverwideStandsAlone(line: seq<string>, width: nat, word: string)
    requires Allowed(line, width) && word in line && |word| > width
    ensures line == [word]
  {
    var i :| 0 <= i < |line| && line[i] == word;
    JoinLength(line);
    assert line == line[..i] + [word] + line[i + 1..];
    LengthAppends(line[..i], [word]);
    LengthAppends(line[..i] + [word], line[i + 1..]);
    assert Length([word]) == |word| by { assert [word][1..] == []; }
  }

  ghost function Length(words: seq<string>): nat {
    if words == [] then 0 else |words[0]| + Length(words[1..])
  }

  lemma {:induction false} LengthAppends(a: seq<string>, b: seq<string>)
    ensures Length(a + b) == Length(a) + Length(b)
  {
    if a == [] {
      assert a + b == b;
    } else {
      assert (a + b)[1..] == a[1..] + b;
      LengthAppends(a[1..], b);
    }
  }

  lemma {:induction false} JoinLength(words: seq<string>)
    requires words != []
    ensures |Join(words)| == Length(words) + |words| - 1
  {
    var front, last := words[..|words| - 1], words[|words| - 1];
    assert words == front + [last];
    LengthAppends(front, [last]);
    assert Length([last]) == |last| by { assert [last][1..] == []; }
    if front != [] {
      JoinLength(front);
    }
  }

  // ----- no other breaking is shorter -----

  /** The end of each line but the last leaves no room for the first word of the next. */
  ghost predicate NoRoom(lines: seq<seq<string>>, width: nat) {
    |lines| < 2 || (lines[1] != [] && !Fits(lines[0], lines[1][0], width) && NoRoom(lines[1..], width))
  }

  lemma {:induction false} NoRoomGrows(front: seq<seq<string>>, line: seq<string>, word: string, width: nat)
    requires line != [] && NoRoom(front + [line], width)
    ensures NoRoom(front + [line + [word]], width)
    ensures !Fits(line, word, width) ==> NoRoom(front + [line] + [[word]], width)
  {
    hide Fits;
    if front != [] {
      assert (front + [line])[1..] == front[1..] + [line];
      assert (front + [line + [word]])[1..] == front[1..] + [line + [word]];
      assert (front + [line] + [[word]])[1..] == front[1..] + [line] + [[word]];
      NoRoomGrows(front[1..], line, word, width);
    }
  }

  lemma {:induction false} GreedyLeavesNoRoom(words: seq<string>, width: nat)
    ensures NoRoom(GreedyLines(words, width), width)
  {
    if words != [] {
      hide Fits;
      var before, word := GreedyLines(words[..|words| - 1], width), words[|words| - 1];
      GreedyLeavesNoRoom(words[..|words| - 1], width);
      if before != [] {
        var front, line := before[..|before| - 1], before[|before| - 1];
        assert before == front + [line];
        NoRoomGrows(front, line, word, width);
      }
    }
  }

  /** A block of an allowed line that goes past some words leaves room for the next word after them. */
  lemma RoomInside(g: seq<string>, next: string, b: seq<string>, k: nat, width: nat)
    requires g != [] && Allowed(b, width)
    requires k + |g| + 1 <= |b| && b[k..k + |g|] == g && b[k + |g|] == next
    ensures Fits(g, next, width)
  {
    var block := g + [next];
    assert b == b[..k] + block + b[k + |g| + 1..];
    LengthAppends(b[..k], block);
    LengthAppends(b[..k] + block, b[k + |g| + 1..]);
    LengthAppends(g, [next]);
    assert Length([next]) == |next| by { assert [next][1..] == []; }
    JoinLength(b);
    JoinLength(g);
  }

  /** Where two breakings stand at the same words left, the other's next line does not reach past the greedy one's. */
  lemma NoLineReachesFurther(g: seq<seq<string>>, w: seq<string>, b: seq<seq<string>>, v: seq<string>, width: nat)
    requires Breaking(g, w, width) && NoRoom(g, width) && Breaking(b, v, width)
    requires |w| <= |v| && v[|v| - |w|..] == w && g != [] && b != []
    ensures |b[0]| <= |v| - |w| + |g[0]|
  {
    hide Join, Fits;
    var k, g0, b0, restG := |v| - |w|, g[0], b[0], Flatten(g[1..]);
    assert Allowed(g0, width) && Allowed(b0, width);
    if k + |g0| < |b0| {
      assert g[1..] != [] && Allowed(g[1], width) && restG[0] == g[1][0];
      SameWords(g0, restG, w, b0, v, k);
      RoomInside(g0, g[1][0], b0, k, width);
      assert false;
    }
  }

  lemma SameWords(g0: seq<string>, restG: seq<string>, w: seq<string>, b0: seq<string>, v: seq<string>, k: nat)
    requires w == g0 + restG && restG != [] && b0 <= v && |w| <= |v|
    requires k == |v| - |w| && v[k..] == w && k + |g0| < |b0|
    ensures b0[k..k + |g0|] == g0 && b0[k + |g0|] == restG[0]
  {
    assert b0[k..k + |g0|] == v[k..k + |g0|] == w[..|g0|];
    assert b0[k + |g0|] == v[k..][|g0|] == w[|g0|];
  }

  lemma WordsLeft(g0: seq<string>, restG: seq<string>, b0: seq<string>, restB: seq<string>)
    requires var w, v := g0 + restG, b0 + restB; |w| <= |v| && v[|v| - |w|..] == w && |b0| <= |v| - |w| + |g0|
    ensures |restG| <= |restB| && restB[|restB| - |restG|..] == restG
  {
    var w, v := g0 + restG, b0 + restB;
    assert restB == v[|b0|..] && restG == w[|g0|..];
    assert v[|v| - |restG|..] == v[|v| - |w|..][|g0|..];
  }

  /** Greedy stays ahead: what is left to a greedy breaking is never more than what is left to another. */
  lemma {:induction false} StaysAhead(g: seq<seq<string>>, w: seq<string>, b: seq<seq<string>>, v: seq<string>, width: nat)
    requires Breaking(g, w, width) && NoRoom(g, width) && Breaking(b, v, width)
    requires |w| <= |v| && v[|v| - |w|..] == w
    ensures |g| <= |b|
  {
    hide Join, Fits;
    if g != [] {
      assert Allowed(g[0], width) && w != [] && b != [];
      NoLineReachesFurther(g, w, b, v, width);
      WordsLeft(g[0], Flatten(g[1..]), b[0], Flatten(b[1..]));
      StaysAhead(g[1..], Flatten(g[1..]), b[1..], Flatten(b[1..]), width);
    }
  }

  /** The greedy breaking uses the fewest lines of any breaking of the same words, over-wide words included. */
  lemma GreedyIsShortest(words: seq<string>, width: nat, other: seq<seq<string>>)
    requires Breaking(other, words, width)
    ensures |GreedyLines(words, width)| <= |other|
  {
    GreedyBreaks(words, width);
    GreedyLeavesNoRoom(words, width);
    StaysAhead(GreedyLines(words, width), words, other, words, width);
  }

  // ----- reading the output back -----

  /** The lines as printed, each ended by a newline. */
  ghost function Output(lines: seq<string>): string {
    if lines == [] then "" else lines[0] + "\n" + Output(lines[1..])
  }

  lemma {:induction false} WordsSplit(a: string, c: char, b: string)
    requires IsWhitespace(c)
    ensures Words(a + [c] + b) == Words(a) + Words(b)
    decreases |a|
  {
    hide IsWhitespace, FirstChunk, Words;
    FirstChunkSplit(a, c, b);
    WordsStep(a + [c] + b);
    WordsStep(a);
    var (chunk, rest) := FirstChunk(a);
    if |chunk| < |a| {
      WordsSplit(rest, c, b);
    }
  }

  lemma WordsStep(text: string)
    ensures var (chunk, rest) := FirstChunk(text);
      Words(text) == (if chunk == "" then [] else [chunk]) + if text == "" then [] else Words(rest)
    ensures Words("") == []
  {
    hide IsWhitespace;
  }

  /** Where the first chunk of a longer text ends: inside `a` if `a` holds white space, and at `c` otherwise. */
  lemma {:induction false} FirstChunkSplit(a: string, c: char, b: string)
    requires IsWhitespace(c)
    ensures var (chunk, rest) := FirstChunk(a);
      && |chunk| <= |a| && (|chunk| == |a| ==> rest == "")
      && FirstChunk(a + [c] + b) == (chunk, if |chunk| < |a| then rest + [c] + b else b)
    decreases |a|
  {
    var text := a + [c] + b;
    if a == "" {
      assert text[1..] == b;
    } else if IsWhitespace(a[0]) {
      assert text[1..] == a[1..] + [c] + b;
    } else {
      assert text[1..] == a[1..] + [c] + b;
      FirstChunkSplit(a[1..], c, b);
    }
  }

  lemma {:induction false} WordIsOneWord(w: string)
    requires IsWord(w)
    ensures Words(w) == [w]
  {
    WholeChunk(w);
  }

  lemma {:induction false} WholeChunk(w: string)
    requires forall c <- w :: !IsWhitespace(c)
    ensures FirstChunk(w) == (w, "")
  {
    if w != "" {
      WholeChunk(w[1..]);
      assert w == [w[0]] + w[1..];
    }
  }

  lemma {:induction false} JoinReadsBack(line: seq<string>)
    requires forall w <- line :: IsWord(w)
    ensures Words(Join(line)) == line
  {
    if |line| == 1 {
      WordIsOneWord(line[0]);
    } else if |line| > 1 {
      var front, last := line[..|line| - 1], line[|line| - 1];
      JoinReadsBack(front);
      WordIsOneWord(last);
      assert Join(front) + " " + last == Join(front) + [' '] + last;
      WordsSplit(Join(front), ' ', last);
    }
  }

  lemma {:induction false} LinesReadBack(broken: seq<seq<string>>)
    requires forall w <- Flatten(broken) :: IsWord(w)
    ensures Words(Output(Joined(broken))) == Flatten(broken)
  {
    if broken != [] {
      var first, rest := broken[0], broken[1..];
      JoinReadsBack(first);
      LinesReadBack(rest);
      assert Joined(broken)[1..] == Joined(rest);
      assert Join(first) + "\n" + Output(Joined(rest)) == Join(first) + ['\n'] + Output(Joined(rest));
      WordsSplit(Join(first), '\n', Output(Joined(rest)));
    }
  }

  /** Printing the wrapped lines and splitting them again gives the words of the text. */
  lemma WrappedTextKeepsItsWords(text: string, width: nat, lines: seq<string>)
    requires var broken := GreedyLines(Words(text), width);
      lines == if broken == [] then [""] else Joined(broken)
    ensures Words(Output(lines)) == Words(text)
  {
    GreedyBreaks(Words(text), width);
    if Words(text) == [] {
      assert lines == [""] && lines[1..] == [];
      WordsSplit("", '\n', "");
      assert Output(lines) == "" + ['\n'] + "";
    } else {
      LinesReadBack(GreedyLines(Words(text), width));
    }
  }
}
