/** Resolving a relative reference inside an archive: dot segments are removed segment by
    segment, each segment being decoded once and only after the split, so that an escaped slash
    stays inside its segment. */
module ArchivePaths {
  import opened OpusGraphs

  const SLASH: char := '/'

  /** Percent-decoding of one segment. */
  type Unescape = string -> Option<string>

  function Split(s: string): (segments: seq<string>)
    ensures segments != []
  {
    if s == [] then [[]]
    else
      var rest := Split(s[1..]);
      if s[0] == SLASH then [[]] + rest else [[s[0]] + rest[0]] + rest[1..]
  }

  function Join(segments: seq<string>): string {
    if segments == [] then []
    else if |segments| == 1 then segments[0]
    else segments[0] + [SLASH] + Join(segments[1..])
  }

  /** Splitting loses nothing, empty segments included. */
  lemma {:induction false} JoinSplit(s: string)
    ensures Join(Split(s)) == s
  {
    if s != [] {
      var rest := Split(s[1..]);
      JoinSplit(s[1..]);
      if s[0] == SLASH {
        assert ([[]] + rest)[1..] == rest;
        assert s == [] + [SLASH] + s[1..];
      } else {
        var all := [[s[0]] + rest[0]] + rest[1..];
        assert all[1..] == rest[1..];
        assert s == [s[0]] + s[1..];
        assert |rest| > 1 ==> [s[0]] + (rest[0] + [SLASH] + Join(rest[1..])) == [s[0]] + rest[0] + [SLASH] + Join(rest[1..]);
      }
    }
  }

  lemma {:induction false} SplitBare(s: string, k: nat)
    requires k < |Split(s)|
    ensures SLASH !in Split(s)[k]
  {
    if s != [] {
      var rest := Split(s[1..]);
      if s[0] == SLASH {
        if k > 0 {
          SplitBare(s[1..], k - 1);
        }
      } else {
        SplitBare(s[1..], k);
      }
    }
  }

  /** Nor does joining, as long as no segment holds a slash: the segments of a path are exactly what
      stands between its slashes. */
  lemma {:induction false} SplitJoin(segments: seq<string>)
    requires segments != [] && forall k :: 0 <= k < |segments| ==> SLASH !in segments[k]
    ensures Split(Join(segments)) == segments
  {
    if |segments| == 1 {
      SplitPlain(segments[0]);
      assert segments == [segments[0]];
    } else {
      SplitJoin(segments[1..]);
      SplitAfter(segments[0], Join(segments[1..]));
    }
  }

  lemma {:induction false} SplitPlain(s: string)
    requires SLASH !in s
    ensures Split(s) == [s]
  {
    if s != [] {
      SplitPlain(s[1..]);
      assert [s[0]] + s[1..] == s;
    }
  }

  lemma {:induction false} SplitAfter(s: string, rest: string)
    requires SLASH !in s
    ensures Split(s + [SLASH] + rest) == [s] + Split(rest)
  {
    if s == [] {
      assert (s + [SLASH] + rest)[1..] == rest;
    } else {
      SplitAfter(s[1..], rest);
      assert (s + [SLASH] + rest)[1..] == s[1..] + [SLASH] + rest;
      assert ([s[1..]] + Split(rest))[1..] == Split(rest);
      assert (s + [SLASH] + rest)[0] == s[0] && [s[0]] + s[1..] == s;
    }
  }

  lemma {:induction false} JoinConcat(a: seq<string>, b: seq<string>)
    requires a != [] && b != []
    ensures Join(a + b) == Join(a) + [SLASH] + Join(b)
  {
    if |a| == 1 {
      assert (a + b)[1..] == b;
    } else {
      assert (a + b)[1..] == a[1..] + b;
      JoinConcat(a[1..], b);
      assert a[0] + [SLASH] + (Join(a[1..]) + [SLASH] + Join(b)) == a[0] + [SLASH] + Join(a[1..]) + [SLASH] + Join(b);
    }
  }

  // Dot segments

  predicate Up(segment: string) {
    segment == ".."
  }

  predicate Here(segment: string) {
    segment == "."
  }

  /** One segment after those of `base`; nothing lies above the archive. */
  function Step(base: Option<seq<string>>, segment: Option<string>): Option<seq<string>> {
    if base.None? || segment.None? then None
    else if Here(segment.value) then base
    else if !Up(segment.value) then Some(base.value + [segment.value])
    else if base.value == [] then None
    else Some(base.value[..|base.value| - 1])
  }

  function Steps(unescape: Unescape, base: Option<seq<string>>, segments: seq<string>): Option<seq<string>> {
    if segments == [] then base
    else Step(Steps(unescape, base, segments[..|segments| - 1]), unescape(segments[|segments| - 1]))
  }

  /** How many names are left after the segments, below zero if they climb out. */
  function Height(unescape: Unescape, base: nat, segments: seq<string>): int {
    if segments == [] then base
    else
      var last := unescape(segments[|segments| - 1]);
      Height(unescape, base, segments[..|segments| - 1]) +
      if last.None? || Here(last.value) then 0 else if Up(last.value) then -1 else 1
  }

  ghost predicate Stays(unescape: Unescape, base: nat, segments: seq<string>) {
    forall k :: 0 <= k <= |segments| ==> HeightAt(unescape, base, segments, k) >= 0
  }

  function HeightAt(unescape: Unescape, base: nat, segments: seq<string>, k: nat): int
    requires k <= |segments|
  {
    Height(unescape, base, segments[..k])
  }

  ghost predicate Decodable(unescape: Unescape, segments: seq<string>) {
    forall k :: 0 <= k < |segments| ==> unescape(segments[k]).Some?
  }

  lemma StaysStep(unescape: Unescape, base: nat, segments: seq<string>)
    requires segments != []
    ensures Stays(unescape, base, segments) <==>
            Stays(unescape, base, segments[..|segments| - 1]) && Height(unescape, base, segments) >= 0
  {
    hide Height;
    var before := segments[..|segments| - 1];
    assert segments[..|segments|] == segments;
    forall k | 0 <= k <= |before|
      ensures HeightAt(unescape, base, before, k) == HeightAt(unescape, base, segments, k)
    {
      assert before[..k] == segments[..k];
    }
    if Stays(unescape, base, segments) {
      assert HeightAt(unescape, base, segments, |segments|) >= 0;
    }
  }

  /** A reference resolves exactly if every segment can be decoded and no beginning of it climbs
      out of the archive; the number of names is then the height. */
  lemma {:induction false} ResolvesInside(unescape: Unescape, base: seq<string>, segments: seq<string>)
    ensures Steps(unescape, Some(base), segments).Some? <==>
            Decodable(unescape, segments) && Stays(unescape, |base|, segments)
    ensures Steps(unescape, Some(base), segments).Some? ==>
              |Steps(unescape, Some(base), segments).value| == Height(unescape, |base|, segments)
  {
    if segments == [] {
      assert segments[..0] == [];
    } else {
      var before := segments[..|segments| - 1];
      ResolvesInside(unescape, base, before);
      StaysStep(unescape, |base|, segments);
      assert Decodable(unescape, segments) <==> Decodable(unescape, before) && unescape(segments[|segments| - 1]).Some? by {
        assert segments == before + [segments[|segments| - 1]];
      }
    }
  }

  lemma {:induction false} StepsConcat(unescape: Unescape, base: Option<seq<string>>, a: seq<string>, b: seq<string>)
    ensures Steps(unescape, base, a + b) == Steps(unescape, Steps(unescape, base, a), b)
  {
    if b == [] {
      assert a + b == a;
    } else {
      assert (a + b)[..|a + b| - 1] == a + b[..|b| - 1];
      StepsConcat(unescape, base, a, b[..|b| - 1]);
    }
  }

  lemma StepsOne(unescape: Unescape, base: Option<seq<string>>, segment: string)
    ensures Steps(unescape, base, [segment]) == Step(base, unescape(segment))
  {
    assert [segment][..0] == [];
  }

  /** A name followed by a step up cancels out, wherever it stands. */
  lemma UpCancels(unescape: Unescape, base: Option<seq<string>>, a: seq<string>, name: string, up: string, b: seq<string>)
    requires unescape(name).Some? && !Here(unescape(name).value) && !Up(unescape(name).value)
    requires unescape(up) == Some("..")
    ensures Steps(unescape, base, a + [name, up] + b) == Steps(unescape, base, a + b)
  {
    hide Steps;
    var here := Steps(unescape, base, a);
    StepsConcat(unescape, base, a + [name, up], b);
    StepsConcat(unescape, base, a, [name, up]);
    StepsConcat(unescape, here, [name], [up]);
    StepsConcat(unescape, base, a, b);
    assert [name] + [up] == [name, up];
    StepsOne(unescape, here, name);
    StepsOne(unescape, Step(here, unescape(name)), up);
    if here.Some? {
      assert (here.value + [unescape(name).value])[..|here.value|] == here.value;
    }
  }

  /** A step to where one is changes nothing. */
  lemma HereVanishes(unescape: Unescape, base: Option<seq<string>>, a: seq<string>, here: string, b: seq<string>)
    requires unescape(here) == Some(".")
    ensures Steps(unescape, base, a + [here] + b) == Steps(unescape, base, a + b)
  {
    hide Steps;
    StepsConcat(unescape, base, a + [here], b);
    StepsConcat(unescape, base, a, [here]);
    StepsConcat(unescape, base, a, b);
    StepsOne(unescape, Steps(unescape, base, a), here);
  }

  /** Names as they are escaped in a reference. */
  ghost predicate Escaped(unescape: Unescape, names: seq<string>, segments: seq<string>) {
    && |names| == |segments|
    && forall k :: 0 <= k < |names| ==> !Here(names[k]) && !Up(names[k]) && unescape(segments[k]) == Some(names[k])
  }

  /** Names are what is left when all steps have cancelled out; they are appended decoded. */
  lemma {:induction false} NamesStand(unescape: Unescape, base: seq<string>, names: seq<string>, segments: seq<string>)
    requires Escaped(unescape, names, segments)
    ensures Steps(unescape, Some(base), segments) == Some(base + names)
  {
    if segments == [] {
      assert base + names == base;
    } else {
      var n := |names| - 1;
      NamesStand(unescape, base, names[..n], segments[..n]);
      assert base + names[..n] + [names[n]] == base + names;
    }
  }

  /** A reference of names leads below the directory of its document, or below the top of the
      archive if a slash precedes it. */
  lemma ResolvesBelow(unescape: Unescape, directory: string, names: seq<string>, segments: seq<string>, escaped: string)
    requires names != [] && Escaped(unescape, names, segments)
    requires forall k :: 0 <= k < |segments| ==> SLASH !in segments[k]
    requires segments[0] != [] && escaped == Join(segments)
    ensures escaped != "" && Base(directory, [SLASH] + escaped) == []
    ensures Split(Reference(escaped)) == segments && Split(Reference([SLASH] + escaped)) == segments
    ensures Steps(unescape, Some(Base(directory, [SLASH] + escaped)), segments) == Some(names)
    ensures Steps(unescape, Some(Base(directory, escaped)), segments).Some?
    ensures Join(Steps(unescape, Some(Base(directory, escaped)), segments).value) ==
            if directory == "." then Join(names) else directory + [SLASH] + Join(names)
  {
    hide Steps;
    SplitJoin(segments);
    assert escaped[0] == segments[0][0];
    NamesStand(unescape, [], names, segments);
    assert [] + names == names;
    if directory != "." {
      JoinSplit(directory);
      NamesStand(unescape, Split(directory), names, segments);
      JoinConcat(Split(directory), names);
    }
  }

  /** The directory of the document that holds the reference; a leading slash starts at the top. */
  function Base(directory: string, escaped: string): seq<string> {
    if (|escaped| > 0 && escaped[0] == SLASH) || directory == "." then [] else Split(directory)
  }

  function Reference(escaped: string): string {
    if |escaped| > 0 && escaped[0] == SLASH then escaped[1..] else escaped
  }

  /** An empty reference is the document itself, any other one is resolved against the directory. */
  method ResolveArchivePath(unescape: Unescape, sourcePath: string, directory: string, escaped: string) returns (out: Option<string>)
    ensures escaped == "" ==> out == Some(sourcePath)
    ensures escaped != "" ==>
              var base, segments := Base(directory, escaped), Split(Reference(escaped));
              && (out.Some? <==> Decodable(unescape, segments) && Stays(unescape, |base|, segments))
              && (out.Some? ==> Steps(unescape, Some(base), segments).Some?
                                && out.value == Join(Steps(unescape, Some(base), segments).value))
  {
    if escaped == "" {
      return Some(sourcePath);
    }
    var base := Base(directory, escaped);
    var references := Split(Reference(escaped));
    var segments := base;
    ResolvesInside(unescape, base, references);
    for i := 0 to |references|
      invariant Steps(unescape, Some(base), references[..i]) == Some(segments)
    {
      assert references[..i + 1][..i] == references[..i];
      var segment := unescape(references[i]);
      if segment.None? || (Up(segment.value) && segments == []) {
        Stuck(unescape, Some(base), references, i + 1);
        return None;
      }
      if Up(segment.value) {
        segments := segments[..|segments| - 1];
      } else if !Here(segment.value) {
        segments := segments + [segment.value];
      }
    }
    assert references[..|references|] == references;
    return Some(Join(segments));
  }

  /** Once refused, refused. */
  lemma Stuck(unescape: Unescape, base: Option<seq<string>>, segments: seq<string>, k: nat)
    requires k <= |segments| && Steps(unescape, base, segments[..k]).None?
    ensures Steps(unescape, base, segments).None?
  {
    assert segments == segments[..k] + segments[k..];
    StepsConcat(unescape, base, segments[..k], segments[k..]);
    StuckNone(unescape, segments[k..]);
  }

  lemma {:induction false} StuckNone(unescape: Unescape, segments: seq<string>)
    ensures Steps(unescape, None, segments).None?
  {
    if segments != [] {
      StuckNone(unescape, segments[..|segments| - 1]);
    }
  }
}
