/**
  Destination-path text handling of the uploader: normalising the user's
  destination argument into segments, and building the canonical remote
  path `/seg1/seg2/.../` from segments.
 */
module Paths {

  /** The canonical remote separator (the alternate directory separator). */
  const Sep: char := '/'

  /** `s` with every occurrence of `from` replaced by `to` (string.Replace). */
  function Replace(s: string, from: char, to: char): (r: string)
    ensures |r| == |s|
    ensures forall i :: 0 <= i < |s| ==> r[i] == if s[i] == from then to else s[i]
  {
    if s == [] then [] else [if s[0] == from then to else s[0]] + Replace(s[1..], from, to)
  }

  /** Length of the longest prefix of `s` that holds no `sep`. */
  function TokenEnd(s: string, sep: char): (k: nat)
    ensures k <= |s|
    ensures s != [] && s[0] != sep ==> k >= 1
  {
    if s == [] || s[0] == sep then 0 else 1 + TokenEnd(s[1..], sep)
  }

  /** `TokenEnd` stops exactly at the first separator. */
  lemma {:induction false} TokenEndSpec(s: string, sep: char)
    ensures forall i :: 0 <= i < TokenEnd(s, sep) ==> s[i] != sep
    ensures TokenEnd(s, sep) < |s| ==> s[TokenEnd(s, sep)] == sep
    decreases |s|
  {
    if s != [] && s[0] != sep {
      TokenEndSpec(s[1..], sep);
    }
  }

  /**
    `s.Split(sep, StringSplitOptions.RemoveEmptyEntries)`: the maximal
    separator-free runs of `s`, in order, empty ones dropped.
   */
  function Split(s: string, sep: char): seq<string>
    decreases |s|
  {
    if s == [] then []
    else if s[0] == sep then Split(s[1..], sep)
    else
      var k := TokenEnd(s, sep);
      [s[..k]] + Split(s[k..], sep)
  }

  /** Every segment of a split is non-empty and free of the separator. */
  lemma {:induction false} SplitSegments(s: string, sep: char)
    ensures forall i :: 0 <= i < |Split(s, sep)| ==> Split(s, sep)[i] != [] && sep !in Split(s, sep)[i]
    decreases |s|
  {
    if s != [] {
      if s[0] == sep {
        SplitSegments(s[1..], sep);
      } else {
        var k := TokenEnd(s, sep);
        TokenEndSpec(s, sep);
        SplitSegments(s[k..], sep);
        assert sep !in s[..k];
      }
    }
  }

  /** A segment as the resolver uses it: non-empty and free of separators. */
  predicate ValidSegment(x: string) {
    x != [] && Sep !in x
  }

  predicate ValidSegments(segs: seq<string>) {
    forall i :: 0 <= i < |segs| ==> ValidSegment(segs[i])
  }

  /**
    The resolver's first step: replace the platform separator by `Sep`,
    then split on `Sep`, dropping empty entries.
   */
  function Normalize(destination: string, platformSep: char): (segs: seq<string>)
    ensures ValidSegments(segs)
    ensures forall i :: 0 <= i < |segs| ==> platformSep !in segs[i]
  {
    ReplaceRemoves(destination, platformSep, Sep);
    SplitSegments(Replace(destination, platformSep, Sep), Sep);
    SplitAvoids(Replace(destination, platformSep, Sep), Sep, platformSep);
    Split(Replace(destination, platformSep, Sep), Sep)
  }

  /** A character absent from `s` is absent from every segment of it. */
  lemma {:induction false} SplitAvoids(s: string, sep: char, c: char)
    requires c !in s || c == sep
    ensures forall i :: 0 <= i < |Split(s, sep)| ==> c !in Split(s, sep)[i]
    decreases |s|
  {
    if s != [] {
      if s[0] == sep {
        SplitAvoids(s[1..], sep, c);
      } else {
        var k := TokenEnd(s, sep);
        TokenEndSpec(s, sep);
        assert s == s[..k] + s[k..];
        assert c !in s[..k];
        SplitAvoids(s[k..], sep, c);
      }
    }
  }

  lemma ReplaceRemoves(s: string, from: char, to: char)
    ensures from != to ==> from !in Replace(s, from, to)
  {
  }

  /** The characters of `s` other than `c`, in order. */
  function Strip(s: string, c: char): string {
    if s == [] then [] else (if s[0] == c then [] else [s[0]]) + Strip(s[1..], c)
  }

  function Concat(segs: seq<string>): string {
    if segs == [] then [] else segs[0] + Concat(segs[1..])
  }

  /** `seg1/seg2/.../segN/`: every segment followed by `Sep`. */
  function Joined(segs: seq<string>): (s: string)
    ensures s == [] <==> segs == []
    ensures s != [] ==> s[|s| - 1] == Sep
  {
    if segs == [] then [] else segs[0] + [Sep] + Joined(segs[1..])
  }

  /**
    The remote path the resolver accumulates for `segs`: the root `/`
    followed by each segment and a `/`.
   */
  function PathOf(segs: seq<string>): (p: string)
    ensures |p| >= 1 && p[0] == Sep && p[|p| - 1] == Sep
  {
    [Sep] + Joined(segs)
  }

  // ---------------------------------------------------------------------
  // Lemmas
  // ---------------------------------------------------------------------

  /** Stripping a string given by its first character and the rest. */
  lemma StripCons(h: char, r: string, c: char)
    ensures Strip([h] + r, c) == (if h == c then [] else [h]) + Strip(r, c)
  {
    assert ([h] + r)[0] == h;
    assert ([h] + r)[1..] == r;
  }

  lemma Assoc(a: string, b: string, d: string)
    ensures a + (b + d) == a + b + d
  {
  }

  lemma {:induction false} StripAppend(a: string, b: string, c: char)
    ensures Strip(a + b, c) == Strip(a, c) + Strip(b, c)
    decreases |a|
  {
    if a == [] {
      assert a + b == b;
    } else {
      var head := if a[0] == c then [] else [a[0]];
      assert a == [a[0]] + a[1..];
      assert a + b == [a[0]] + (a[1..] + b);
      StripCons(a[0], a[1..] + b, c);
      StripCons(a[0], a[1..], c);
      StripAppend(a[1..], b, c);
      Assoc(head, Strip(a[1..], c), Strip(b, c));
    }
  }

  lemma {:induction false} StripAbsent(a: string, c: char)
    requires c !in a
    ensures Strip(a, c) == a
    decreases |a|
  {
    if a != [] {
      StripAbsent(a[1..], c);
    }
  }

  /**
    Splitting loses exactly the separators: gluing the segments back
    together gives `s` with every `sep` removed.
   */
  lemma {:induction false} SplitKeepsText(s: string, sep: char)
    ensures Concat(Split(s, sep)) == Strip(s, sep)
    decreases |s|
  {
    if s == [] {
    } else if s[0] == sep {
      SplitKeepsText(s[1..], sep);
    } else {
      var k := TokenEnd(s, sep);
      TokenEndSpec(s, sep);
      var rest := Split(s[k..], sep);
      assert Split(s, sep) == [s[..k]] + rest;
      assert ([s[..k]] + rest)[1..] == rest;
      SplitKeepsText(s[k..], sep);
      assert s == s[..k] + s[k..];
      StripAppend(s[..k], s[k..], sep);
      StripAbsent(s[..k], sep);
    }
  }

  lemma {:induction false} ConcatEmpty(segs: seq<string>)
    requires forall i :: 0 <= i < |segs| ==> segs[i] != []
    requires Concat(segs) == []
    ensures segs == []
  {
  }

  lemma {:induction false} StripAll(s: string, c: char)
    requires forall i :: 0 <= i < |s| ==> s[i] == c
    ensures Strip(s, c) == []
    decreases |s|
  {
    if s != [] {
      StripAll(s[1..], c);
    }
  }

  /**
    A destination made only of separators (the empty one included)
    normalises to no segments at all.
   */
  lemma SeparatorsOnly(destination: string, platformSep: char)
    requires forall i :: 0 <= i < |destination| ==> destination[i] == Sep || destination[i] == platformSep
    ensures Normalize(destination, platformSep) == []
  {
    var r := Replace(destination, platformSep, Sep);
    StripAll(r, Sep);
    SplitKeepsText(r, Sep);
    SplitSegments(r, Sep);
    ConcatEmpty(Split(r, Sep));
  }

  lemma {:induction false} TokenEndOf(x: string, rest: string)
    requires Sep !in x
    ensures TokenEnd(x + [Sep] + rest, Sep) == |x|
  {
    var s := x + [Sep] + rest;
    var k := TokenEnd(s, Sep);
    TokenEndSpec(s, Sep);
    assert s[|x|] == Sep;
  }

  /** A valid segment followed by a separator splits off as one segment. */
  lemma SplitCons(x: string, y: string)
    requires ValidSegment(x)
    ensures Split(x + [Sep] + y, Sep) == [x] + Split(y, Sep)
  {
    var s := x + [Sep] + y;
    TokenEndOf(x, y);
    assert s[0] == x[0];
    assert s[..|x|] == x;
    assert s[|x|..] == [Sep] + y;
    assert ([Sep] + y)[1..] == y;
  }

  /** A non-empty sequence is its head followed by its tail, also inside a concatenation. */
  lemma Recons(a: seq<string>, b: seq<string>)
    requires a != []
    ensures [a[0]] + (a[1..] + b) == a + b
  {
    assert a == [a[0]] + a[1..];
  }

  /** One segment of `Joined(segs) + rest` splits off. */
  lemma SplitJoinedStep(segs: seq<string>, rest: string)
    requires segs != [] && ValidSegment(segs[0])
    ensures Split(Joined(segs) + rest, Sep) == [segs[0]] + Split(Joined(segs[1..]) + rest, Sep)
  {
    var x, j := segs[0], Joined(segs[1..]);
    assert Joined(segs) == x + [Sep] + j;
    Assoc(x + [Sep], j, rest);
    SplitCons(x, j + rest);
  }

  /** Splitting `Joined(segs) + rest` recovers `segs`, then splits `rest`. */
  lemma {:induction false} SplitJoined(segs: seq<string>, rest: string)
    requires ValidSegments(segs)
    ensures Split(Joined(segs) + rest, Sep) == segs + Split(rest, Sep)
    decreases |segs|
  {
    if segs == [] {
      assert Joined(segs) + rest == rest;
    } else {
      SplitJoinedStep(segs, rest);
      SplitJoined(segs[1..], rest);
      Recons(segs, Split(rest, Sep));
    }
  }

  /** Round trip: the path built from valid segments splits back into them. */
  lemma SplitPathOf(segs: seq<string>)
    requires ValidSegments(segs)
    ensures Split(PathOf(segs), Sep) == segs
  {
    SplitJoined(segs, []);
    assert Joined(segs) + [] == Joined(segs);
    assert PathOf(segs)[1..] == Joined(segs);
  }

  /** Appending a valid segment name to a resolved path names a child of it. */
  lemma SplitPathOfThen(segs: seq<string>, name: string)
    requires ValidSegments(segs) && ValidSegment(name)
    ensures Split(PathOf(segs) + name, Sep) == segs + [name]
  {
    SplitJoined(segs, name);
    assert (PathOf(segs) + name)[1..] == Joined(segs) + name;
    TokenEndSpec(name, Sep);
    assert TokenEnd(name, Sep) == |name|;
    assert name[..|name|] == name;
  }

  lemma {:induction false} JoinedSnoc(segs: seq<string>, x: string)
    ensures Joined(segs + [x]) == Joined(segs) + x + [Sep]
    decreases |segs|
  {
    if segs == [] {
      assert segs + [x] == [x];
    } else {
      assert (segs + [x])[0] == segs[0];
      assert (segs + [x])[1..] == segs[1..] + [x];
      JoinedSnoc(segs[1..], x);
    }
  }

  /** Extending the accumulated path by one segment, as the walk does. */
  lemma PathOfSnoc(segs: seq<string>, i: nat)
    requires i < |segs|
    ensures PathOf(segs[..i + 1]) == PathOf(segs[..i]) + segs[i] + [Sep]
  {
    assert segs[..i + 1] == segs[..i] + [segs[i]];
    JoinedSnoc(segs[..i], segs[i]);
  }
}
