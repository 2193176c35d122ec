/** Normalised path keys: a backslash before every segment, no segment empty, no segment holding a backslash. */
module PathKeys {
  import opened Prelude

  predicate IsSegment(s: string) { s != "" && '\\' !in s }

  /** A key is one or more segments, each after a backslash. */
  predicate IsKey(key: string) {
    var i := LastSlash(key);
    i >= 0 && IsSegment(key[i + 1..]) && (i == 0 || IsKey(key[..i]))
  }

  /** Where the last backslash is, or -1. */
  function LastSlash(s: string): (i: int)
    ensures -1 <= i < |s|
    ensures i >= 0 ==> s[i] == '\\'
    ensures forall k | i < k < |s| :: s[k] != '\\'
  {
    if s == "" then -1
    else if s[|s| - 1] == '\\' then |s| - 1
    else LastSlash(s[..|s| - 1])
  }

  function Parent(key: string): Option<string> {
    var i := LastSlash(key);
    if i < 0 then None else if i == 0 then Some("\\") else Some(key[..i])
  }

  function FileName(key: string): Option<string> {
    var name := key[LastSlash(key) + 1..];
    if name == "" then None else Some(name)
  }

  /** The key of a leaf in a directory. */
  function Child(directory: string, leaf: string): string {
    if directory == "\\" then "\\" + leaf else directory + "\\" + leaf
  }

  predicate IsDirectory(d: string) { d == "\\" || IsKey(d) }

  lemma {:induction false} LastSlashIs(s: string, i: int)
    requires -1 <= i < |s| && (i >= 0 ==> s[i] == '\\') && '\\' !in s[i + 1..]
    ensures LastSlash(s) == i
  {
    var j := LastSlash(s);
    assert !(j < i) && !(i < j);
  }

  lemma KeyParts(key: string, i: int)
    requires i == LastSlash(key)
    ensures IsKey(key) <==> i >= 0 && IsSegment(key[i + 1..]) && (i == 0 || IsKey(key[..i]))
    ensures IsKey(key) ==> key != ""
  {
  }

  /** Splitting a key and joining the parts gives the key back. */
  lemma JoinOfParts(key: string)
    requires IsKey(key)
    ensures Parent(key).Some? && FileName(key).Some?
    ensures IsDirectory(Parent(key).value) && IsSegment(FileName(key).value)
    ensures Child(Parent(key).value, FileName(key).value) == key
  {
    hide IsKey, LastSlash;
    var i := LastSlash(key);
    KeyParts(key, i);
    SplitAt(key, i);
    if i > 0 {
      RootIsNoKey(key[..i]);
    }
  }

  lemma SplitAt(key: string, i: nat)
    requires i < |key| && key[i] == '\\'
    ensures key == key[..i] + "\\" + key[i + 1..]
    ensures i == 0 ==> key == "\\" + key[1..]
  {
  }

  lemma RootIsNoKey(key: string)
    requires IsKey(key)
    ensures key != "\\"
  {
  }

  /** Joining a directory and a leaf and splitting the key gives the parts back, so different parts make different keys. */
  lemma PartsOfJoin(directory: string, leaf: string)
    requires IsDirectory(directory) && IsSegment(leaf)
    ensures IsKey(Child(directory, leaf))
    ensures Parent(Child(directory, leaf)) == Some(directory) && FileName(Child(directory, leaf)) == Some(leaf)
  {
    var key := Child(directory, leaf);
    var i := |key| - |leaf| - 1;
    assert key[i + 1..] == leaf && key[i] == '\\';
    LastSlashIs(key, i);
    if directory != "\\" {
      assert key[..i] == directory;
    }
  }

  // ----- where keys come from -----

  /** A path's segments, one by one: empty and single-dot segments are skipped, double dots go up, names are appended. */
  function Step(out: string, segment: string): string {
    if segment == "" || segment == "." then out
    else if segment == ".." then (if LastSlash(out) >= 0 then out[..LastSlash(out)] else out)
    else out + "\\" + Trimmed(segment)
  }

  /** Trailing spaces and dots do not count, unless nothing else is left. */
  function Trimmed(segment: string): string {
    var t := TrimEnd(segment);
    if t == "" then segment else t
  }

  function TrimEnd(s: string): (r: string)
    ensures r <= s
  {
    if s != "" && (s[|s| - 1] == ' ' || s[|s| - 1] == '.') then TrimEnd(s[..|s| - 1]) else s
  }

  method NormalizeSegments(segments: seq<string>) returns (key: Option<string>)
    requires forall s <- segments :: '\\' !in s
    ensures key.Some? ==> IsKey(key.value)
    ensures key == if Stepped(segments) == "" then None else Some(Stepped(segments))
  {
    var out := "";
    for i := 0 to |segments|
      invariant out == Stepped(segments[..i]) && (out == "" || IsKey(out))
    {
      assert segments[..i + 1][..i] == segments[..i];
      assert segments[i] in segments;
      StepKeepsKeys(out, segments[i]);
      out := Step(out, segments[i]);
    }
    assert segments[..|segments|] == segments;
    key := if out == "" then None else Some(out);
  }

  function Stepped(segments: seq<string>): string {
    if segments == [] then "" else Step(Stepped(segments[..|segments| - 1]), segments[|segments| - 1])
  }

  /** Every path that normalises at all normalises to a key. */
  lemma StepKeepsKeys(out: string, segment: string)
    requires (out == "" || IsKey(out)) && '\\' !in segment
    ensures Step(out, segment) == "" || IsKey(Step(out, segment))
  {
    if segment != "" && segment != "." {
      if segment == ".." {
        if out != "" && LastSlash(out) == 0 { assert out[..0] == ""; }
      } else {
        var name := Trimmed(segment);
        assert IsSegment(name);
        var key := out + "\\" + name;
        assert key[|out| + 1..] == name && key[..|out|] == out;
        LastSlashIs(key, |out|);
      }
    }
  }

  // ----- normalising, seen as a stack -----

  /** The names a path leads through: a double dot takes the last one back, and an empty or dot segment is none. */
  ghost function Stack(segments: seq<string>): seq<string> {
    if segments == [] then []
    else
      var before, segment := Stack(segments[..|segments| - 1]), segments[|segments| - 1];
      if segment == "" || segment == "." then before
      else if segment != ".." then before + [Trimmed(segment)]
      else if before == [] then [] else before[..|before| - 1]
  }

  ghost function Spelled(names: seq<string>): string {
    if names == [] then "" else Spelled(names[..|names| - 1]) + "\\" + names[|names| - 1]
  }

  lemma NothingSpelled()
    ensures Spelled([]) == ""
  {
  }

  lemma SpelledAppends(names: seq<string>, name: string)
    ensures Spelled(names + [name]) == Spelled(names) + "\\" + name
  {
    assert (names + [name])[..|names|] == names;
  }

  /** Normalising text segment by segment, cutting at backslashes, spells that stack. */
  lemma {:induction false} SteppedIsTheStack(segments: seq<string>)
    requires forall s <- segments :: '\\' !in s
    ensures Stepped(segments) == Spelled(Stack(segments)) && forall name <- Stack(segments) :: '\\' !in name
  {
    if segments != [] {
      hide LastSlash, Trimmed, Spelled;
      var before, segment := segments[..|segments| - 1], segments[|segments| - 1];
      SteppedIsTheStack(before);
      var names := Stack(before);
      NothingSpelled();
      assert segment in segments;
      if segment == ".." && names != [] {
        var front, last := names[..|names| - 1], names[|names| - 1];
        assert names == front + [last] && last in names;
        SpelledAppends(front, last);
        CutAtTheLast(Spelled(front), last);
      } else if segment != "" && segment != "." && segment != ".." {
        SpelledAppends(names, Trimmed(segment));
        TrimmedIs(segment);
      }
      assert LastSlash("") == -1;
    }
  }

  lemma CutAtTheLast(front: string, last: string)
    requires '\\' !in last
    ensures var out := front + "\\" + last; LastSlash(out) == |front| && out[..|front|] == front
  {
    var out := front + "\\" + last;
    assert out[|front|] == '\\' && out[|front| + 1..] == last;
    LastSlashIs(out, |front|);
  }

  /** Trimming takes spaces and dots from the end, all of them unless nothing else is left. */
  lemma TrimmedIs(segment: string)
    ensures var t := Trimmed(segment);
      && t <= segment
      && (if forall c <- segment :: c == ' ' || c == '.' then t == segment
          else t != "" && t[|t| - 1] != ' ' && t[|t| - 1] != '.'
               && forall i | |t| <= i < |segment| :: segment[i] == ' ' || segment[i] == '.')
  {
    TrimEndIs(segment);
    assert forall i | 0 <= i < |segment| :: segment[i] in segment;
  }

  lemma {:induction false} TrimEndIs(s: string)
    ensures var t := TrimEnd(s);
      && (t == "" || (t[|t| - 1] != ' ' && t[|t| - 1] != '.'))
      && forall i | |t| <= i < |s| :: s[i] == ' ' || s[i] == '.'
  {
    if s != "" && (s[|s| - 1] == ' ' || s[|s| - 1] == '.') {
      TrimEndIs(s[..|s| - 1]);
    }
  }
}
