/** What the artifacts say about files, as one list that the run rewrites in place. */
module Observations {
  import opened Prelude

  /** A path as the artifact spelled it, the key it is compared by, and whether it says where the file lies. */
  datatype Path = Path(raw: string, key: string, located: bool)

  datatype Source = Mft | Registry(hive: string, key: string) | DefenderLog(event: nat) | OtherSource(name: string)

  datatype Persistence = ComServer | ComHijack | OtherPersistence(name: string)

  datatype Kind =
    | Persistent(what: Persistence, rawValue: string)
    | DeletedRegistryValue(name: string)
    | OtherKind(name: string)

  datatype Observation = Observation(source: Source, path: Option<Path>, kind: Kind)

  function Keys(items: seq<Observation>): set<string> {
    set o <- items | o.path.Some? :: o.path.value.key
  }

  // ----- text -----

  function LowerAscii(s: string): (r: string)
    ensures |r| == |s|
  {
    seq(|s|, i requires 0 <= i < |s| => if 'A' <= s[i] <= 'Z' then s[i] + ('a' - 'A') else s[i])
  }

  function TrimStart(s: string): string {
    if s != "" && IsWhitespace(s[0]) then TrimStart(s[1..]) else s
  }

  /** The pieces between the backslashes of a registry key. */
  function Segments(key: string): (r: seq<string>)
    ensures r != []
  {
    if key == "" then [""]
    else
      var earlier, c := Segments(key[..|key| - 1]), key[|key| - 1];
      if c == '\\' then earlier + [""] else earlier[..|earlier| - 1] + [earlier[|earlier| - 1] + [c]]
  }

  predicate IsClassId(segment: string) { |segment| > 2 && segment[0] == '{' && segment[|segment| - 1] == '}' }

  function FirstClassId(segments: seq<string>): Option<string> {
    if segments == [] then None
    else if IsClassId(segments[0]) then Some(LowerAscii(segments[0]))
    else FirstClassId(segments[1..])
  }

  lemma {:induction false} OneSegment(key: string)
    requires '\\' !in key
    ensures Segments(key) == [key]
  {
    if key != "" {
      OneSegment(key[..|key| - 1]);
      assert key[|key| - 1] in key;
      assert key == key[..|key| - 1] + [key[|key| - 1]];
    }
  }

  /** The same character, or the two cases of one ASCII letter. */
  predicate SameLetter(c: char, d: char) {
    || c == d
    || ('a' <= c <= 'z' && d as int + 32 == c as int)
    || ('a' <= d <= 'z' && c as int + 32 == d as int)
  }

  /** Two texts are alike in lower case exactly when they are alike but for the case of ASCII letters. */
  lemma LowerAsciiIs(a: string, b: string)
    ensures LowerAscii(a) == LowerAscii(b) <==> |a| == |b| && forall i | 0 <= i < |a| :: SameLetter(a[i], b[i])
  {
    if |a| == |b| && forall i | 0 <= i < |a| :: SameLetter(a[i], b[i]) {
      forall i | 0 <= i < |a| ensures LowerAscii(a)[i] == LowerAscii(b)[i] {
        assert SameLetter(a[i], b[i]);
      }
    }
    if LowerAscii(a) == LowerAscii(b) {
      forall i | 0 <= i < |a| ensures SameLetter(a[i], b[i]) {
        assert LowerAscii(a)[i] == LowerAscii(b)[i];
      }
    }
  }

  /** What is trimmed is white space, and what is left does not begin with any. */
  lemma {:induction false} TrimStartIs(s: string)
    ensures var r := TrimStart(s);
      && |r| <= |s| && r == s[|s| - |r|..]
      && (forall i | 0 <= i < |s| - |r| :: IsWhitespace(s[i]))
      && (r == "" || !IsWhitespace(r[0]))
  {
    hide IsWhitespace;
    if s != "" && IsWhitespace(s[0]) {
      TrimStartIs(s[1..]);
      var r := TrimStart(s[1..]);
      assert s[1..][|s| - 1 - |r|..] == s[|s| - |r|..];
      forall i | 0 <= i < |s| - |r| ensures IsWhitespace(s[i]) {
        assert i > 0 ==> s[i] == s[1..][i - 1];
      }
    }
  }

  function JoinSegments(segments: seq<string>): string
    requires segments != []
  {
    if |segments| == 1 then segments[0]
    else JoinSegments(segments[..|segments| - 1]) + "\\" + segments[|segments| - 1]
  }

  lemma JoinOneMore(front: seq<string>, last: string)
    ensures JoinSegments(front + [last]) == if front == [] then last else JoinSegments(front) + "\\" + last
  {
    assert (front + [last])[..|front|] == front;
  }

  lemma SegmentsOneMore(key: string, c: char)
    ensures var earlier := Segments(key);
      Segments(key + [c]) == if c == '\\' then earlier + [""]
                             else earlier[..|earlier| - 1] + [earlier[|earlier| - 1] + [c]]
  {
    assert (key + [c])[..|key|] == key;
  }

  lemma Reassociate(a: string, b: string, c: string, d: string)
    ensures a + b + (c + d) == a + b + c + d
  {
  }

  /** The segments of a key, joined with a backslash between each two, are the key. */
  lemma {:induction false} SegmentsJoin(key: string)
    ensures JoinSegments(Segments(key)) == key
  {
    if key != "" {
      hide Segments, JoinSegments;
      var before, c := key[..|key| - 1], key[|key| - 1];
      SegmentsJoin(before);
      assert key == before + [c];
      SegmentsOneMore(before, c);
      var earlier := Segments(before);
      if c == '\\' {
        JoinOneMore(earlier, "");
      } else {
        var front, last := earlier[..|earlier| - 1], earlier[|earlier| - 1];
        assert earlier == front + [last];
        JoinOneMore(front, last);
        JoinOneMore(front, last + [c]);
        if front != [] {
          Reassociate(JoinSegments(front), "\\", last, [c]);
        }
      }
    }
  }

  /** ... and none of them holds a backslash. */
  lemma {:induction false} SegmentsAreWhole(key: string)
    ensures forall segment <- Segments(key) :: '\\' !in segment
  {
    if key != "" {
      hide Segments;
      SegmentsAreWhole(key[..|key| - 1]);
      assert key == key[..|key| - 1] + [key[|key| - 1]];
      SegmentsOneMore(key[..|key| - 1], key[|key| - 1]);
    }
  }

  ghost predicate InBraces(s: string) { exists inside :: inside != "" && s == "{" + inside + "}" }

  lemma ClassIdsAreInBraces(s: string)
    ensures IsClassId(s) <==> InBraces(s)
  {
    if IsClassId(s) {
      var inside := s[1..|s| - 1];
      assert s == "{" + inside + "}";
    }
  }

  /** The first segment in braces with something between them, in lower case. */
  lemma {:induction false} FirstClassIdIs(segments: seq<string>)
    ensures match FirstClassId(segments)
      case None => forall s <- segments :: !InBraces(s)
      case Some(id) => exists i | 0 <= i < |segments| ::
        && InBraces(segments[i]) && id == LowerAscii(segments[i])
        && forall j | 0 <= j < i :: !InBraces(segments[j])
  {
    hide LowerAscii, IsClassId, InBraces;
    forall s ensures IsClassId(s) <==> InBraces(s) { ClassIdsAreInBraces(s); }
    if segments != [] && !IsClassId(segments[0]) {
      FirstClassIdIs(segments[1..]);
      assert segments == [segments[0]] + segments[1..];
      if FirstClassId(segments).Some? {
        var i :| 0 <= i < |segments[1..]| && IsClassId(segments[1..][i])
                 && FirstClassId(segments) == Some(LowerAscii(segments[1..][i]))
                 && forall j | 0 <= j < i :: !IsClassId(segments[1..][j]);
        assert segments[i + 1] == segments[1..][i];
        forall j | 0 <= j < i + 1 ensures !IsClassId(segments[j]) {
          assert j > 0 ==> segments[j] == segments[1..][j - 1];
        }
      }
    }
  }
}
