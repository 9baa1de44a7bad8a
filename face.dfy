/** The face descriptor: three independent sub-states (eyes, eyebrows, mouth)
    that select constant SVG fragments, assembled in a fixed order into one
    document on a 200 x 120 logical canvas. Everything here is pure. */
module FaceSvg {

  /** The logical canvas of every document (its `viewBox`). */
  const OriSvgWidth: nat := 200
  const OriSvgHeight: nat := 120

  /** The named expressions the application draws. */
  datatype Face = Normal | Happy | Angry

  datatype Pupils = Default | None

  datatype Eye = Open(left: Pupils, right: Pupils) | Close

  datatype Mouth = W | O | Smile | Angry

  datatype EyeBrows = Up | Down | Flat

  datatype FaceBuilder = FaceBuilder(eye: Eye, mouth: Mouth, eyeBrows: EyeBrows)

  // ---------------------------------------------------------------------------
  // Defaults and setters

  const DefaultPupils: Pupils := Pupils.Default
  const DefaultEye: Eye := Open(DefaultPupils, DefaultPupils)
  const DefaultMouth: Mouth := W
  const DefaultEyeBrows: EyeBrows := Flat

  /** The builder every named face starts from: each field at its own default. */
  function DefaultBuilder(): (b: FaceBuilder)
    ensures b.eye == Open(Pupils.Default, Pupils.Default)
    ensures b.mouth == W && b.eyeBrows == Flat
  {
    FaceBuilder(DefaultEye, DefaultMouth, DefaultEyeBrows)
  }

  /** Replaces the eye state; the other two fields are kept. */
  function SetEye(b: FaceBuilder, e: Eye): (r: FaceBuilder)
    ensures r.eye == e
    ensures r.mouth == b.mouth && r.eyeBrows == b.eyeBrows
  {
    b.(eye := e)
  }

  /** Replaces the mouth; the other two fields are kept. */
  function SetMouth(b: FaceBuilder, m: Mouth): (r: FaceBuilder)
    ensures r.mouth == m
    ensures r.eye == b.eye && r.eyeBrows == b.eyeBrows
  {
    b.(mouth := m)
  }

  /** Replaces the eyebrows; the other two fields are kept. */
  function SetEyeBrows(b: FaceBuilder, e: EyeBrows): (r: FaceBuilder)
    ensures r.eyeBrows == e
    ensures r.eye == b.eye && r.mouth == b.mouth
  {
    b.(eyeBrows := e)
  }

  // ---------------------------------------------------------------------------
  // Fragments

  const SvgStart: string := "<svg xmlns=\"http://www.w3.org/2000/svg\" viewBox=\"0 0 200 120\">"
  const SvgEnd: string := "</svg>"

  const LeftPupil: string := "<circle cx=\"65\" cy=\"60\" r=\"8\"/>"
  const RightPupil: string := "<circle cx=\"135\" cy=\"60\" r=\"8\"/>"
  const ClosedEyes: string :=
    "\n                <line x1=\"45\" y1=\"60\" x2=\"85\" y2=\"60\" stroke-width=\"3\"/>"
    + "\n                <line x1=\"115\" y1=\"60\" x2=\"155\" y2=\"60\" stroke-width=\"3\"/>"
    + "\n            "

  const BrowsUp: string :=
    "\n                <line x1=\"50\" y1=\"35\" x2=\"75\" y2=\"42\" stroke-width=\"3\"/>"
    + "\n                <line x1=\"150\" y1=\"35\" x2=\"125\" y2=\"42\" stroke-width=\"3\"/>"
    + "\n            "
  const BrowsDown: string :=
    "\n                <line x1=\"70\" y1=\"35\" x2=\"50\" y2=\"42\" stroke-width=\"3\"/>"
    + "\n                <line x1=\"125\" y1=\"35\" x2=\"150\" y2=\"42\" stroke-width=\"3\"/>"
    + "\n            "
  const BrowsFlat: string :=
    "\n                <line x1=\"55\" y1=\"35\" x2=\"75\" y2=\"35\" stroke=\"#1E90FF\" stroke-width=\"3\"/>"
    + "\n                <line x1=\"125\" y1=\"35\" x2=\"145\" y2=\"35\" stroke=\"#1E90FF\" stroke-width=\"3\"/>"
    + "\n            "

  const MouthW: string :=
    "<path d=\"M135 130 Q145 140 150 130 Q155 140 165 130\" stroke-width=\"3\" fill=\"none\"/>"
  const MouthO: string := "<circle cx=\"100\" cy=\"95\" r=\"6\" stroke-width=\"2\" fill=\"none\"/>"
  const MouthSmile: string := "<path d=\"M90 85 Q100 95 110 85\" stroke-width=\"2\" fill=\"none\"/>"
  const MouthAngry: string := "<path d=\"M80 95 Q100 85 120 95\" stroke-width=\"2\" fill=\"none\"/>"

  const Nose: string := "<circle cx=\"100\" cy=\"80\" r=\"3\"/>"
  const Whiskers: string :=
    "\n            <line x1=\"30\" y1=\"70\" x2=\"45\" y2=\"73\" stroke-width=\"2\"/>"
    + "\n            <line x1=\"30\" y1=\"80\" x2=\"45\" y2=\"80\" stroke-width=\"2\"/>"
    + "\n            <line x1=\"30\" y1=\"90\" x2=\"45\" y2=\"87\" stroke-width=\"2\"/>"
    + "\n            <line x1=\"170\" y1=\"70\" x2=\"155\" y2=\"73\" stroke-width=\"2\"/>"
    + "\n            <line x1=\"170\" y1=\"80\" x2=\"155\" y2=\"80\" stroke-width=\"2\"/>"
    + "\n            <line x1=\"170\" y1=\"90\" x2=\"155\" y2=\"87\" stroke-width=\"2\"/>"
    + "\n        "

  /** One pupil circle, or nothing when that pupil is suppressed. */
  function PupilFragment(p: Pupils, circle: string): string
  {
    if p == Pupils.Default then circle else ""
  }

  function EyeFragment(e: Eye): string
  {
    match e
    case Open(l, r) => PupilFragment(l, LeftPupil) + PupilFragment(r, RightPupil)
    case Close => ClosedEyes
  }

  function EyeBrowsFragment(e: EyeBrows): string
  {
    match e
    case Up => BrowsUp
    case Down => BrowsDown
    case Flat => BrowsFlat
  }

  function MouthFragment(m: Mouth): string
  {
    match m
    case W => MouthW
    case O => MouthO
    case Smile => MouthSmile
    case Angry => MouthAngry
  }

  // ---------------------------------------------------------------------------
  // Assembly

  /** The seven parts of a document, in the order they are written. */
  function Fragments(b: FaceBuilder): seq<string>
  {
    [SvgStart, EyeFragment(b.eye), EyeBrowsFragment(b.eyeBrows), MouthFragment(b.mouth),
     Nose, Whiskers, SvgEnd]
  }

  /** Sum of the lengths of `parts`: the capacity reserved before assembly. */
  function TotalLength(parts: seq<string>): nat
  {
    if parts == [] then 0 else TotalLength(parts[..|parts| - 1]) + |parts[|parts| - 1]|
  }

  /** Appends `parts` one after another to an empty string. */
  function Concat(parts: seq<string>): (s: string)
    ensures |s| == TotalLength(parts)
  {
    if parts == [] then "" else Concat(parts[..|parts| - 1]) + parts[|parts| - 1]
  }

  lemma ConcatSnoc(parts: seq<string>, p: string)
    ensures Concat(parts + [p]) == Concat(parts) + p
  {
    assert (parts + [p])[..|parts|] == parts;
  }

  /** `FaceBuilder::build`. */
  function Build(b: FaceBuilder): string
  {
    Concat(Fragments(b))
  }

  /** The assembly loop of `build`: reserve the total length, then push each
      part in turn. The reservation is never exceeded and is used up exactly. */
  method PushAll(parts: seq<string>) returns (buf: string)
    ensures buf == Concat(parts)
    ensures |buf| == TotalLength(parts)
  {
    var capacity := TotalLength(parts);
    buf := "";
    var i := 0;
    while i < |parts|
      invariant 0 <= i <= |parts|
      invariant buf == Concat(parts[..i])
      invariant |buf| <= capacity
    {
      assert parts[..i + 1][..i] == parts[..i];
      TotalLengthPrefix(parts, i + 1);
      buf := buf + parts[i];
      i := i + 1;
    }
    assert parts[..i] == parts;
  }

  /** A prefix of the parts is never longer in total than all of them. */
  lemma {:induction false} TotalLengthPrefix(parts: seq<string>, n: nat)
    requires n <= |parts|
    ensures TotalLength(parts[..n]) <= TotalLength(parts)
    decreases |parts|
  {
    if n < |parts| {
      var init := parts[..|parts| - 1];
      assert parts[..n] == init[..n];
      TotalLengthPrefix(init, n);
    } else {
      assert parts[..n] == parts;
    }
  }

  /** `FaceBuilder::build` as the source runs it. */
  method BuildDocument(b: FaceBuilder) returns (svg: string)
    ensures svg == Build(b)
  {
    svg := PushAll([SvgStart, EyeFragment(b.eye), EyeBrowsFragment(b.eyeBrows), MouthFragment(b.mouth),
                    Nose, Whiskers, SvgEnd]);
  }

  lemma BuildParts(b: FaceBuilder)
    ensures Build(b) == Concat([SvgStart, EyeFragment(b.eye), EyeBrowsFragment(b.eyeBrows),
                                MouthFragment(b.mouth), Nose, Whiskers, SvgEnd])
  {
  }

  lemma ConcatSeven(a: string, b: string, c: string, d: string, e: string, f: string, g: string)
    ensures Concat([a, b, c, d, e, f, g]) == a + b + c + d + e + f + g
  {
    ConcatSnoc([], a);
    assert [] + [a] == [a];
    ConcatSnoc([a], b);
    assert [a] + [b] == [a, b];
    ConcatSnoc([a, b], c);
    assert [a, b] + [c] == [a, b, c];
    ConcatSnoc([a, b, c], d);
    assert [a, b, c] + [d] == [a, b, c, d];
    ConcatSnoc([a, b, c, d], e);
    assert [a, b, c, d] + [e] == [a, b, c, d, e];
    ConcatSnoc([a, b, c, d, e], f);
    assert [a, b, c, d, e] + [f] == [a, b, c, d, e, f];
    ConcatSnoc([a, b, c, d, e, f], g);
    assert [a, b, c, d, e, f] + [g] == [a, b, c, d, e, f, g];
  }

  /** The document is exactly the seven fragments, in order. */
  lemma BuildLayout(b: FaceBuilder)
    ensures Build(b) == SvgStart + EyeFragment(b.eye) + EyeBrowsFragment(b.eyeBrows)
                        + MouthFragment(b.mouth) + Nose + Whiskers + SvgEnd
  {
    ConcatSeven(SvgStart, EyeFragment(b.eye), EyeBrowsFragment(b.eyeBrows),
                MouthFragment(b.mouth), Nose, Whiskers, SvgEnd);
  }

  /** The length of a document is the sum of its fragments' lengths. */
  lemma BuildLength(b: FaceBuilder)
    ensures |Build(b)| == |SvgStart| + |EyeFragment(b.eye)| + |EyeBrowsFragment(b.eyeBrows)|
                          + |MouthFragment(b.mouth)| + |Nose| + |Whiskers| + |SvgEnd|
  {
    BuildLayout(b);
  }

  /** Cutting `head + mid + tail` around `mid` gives back `head` and `tail`. */
  lemma Slices(head: string, mid: string, tail: string)
    ensures (head + mid + tail)[..|head|] == head
    ensures (head + mid + tail)[|head| + |mid|..] == tail
  {
  }

  /** A document opens with the 200 x 120 `<svg>` tag and closes with `</svg>`. */
  predicate IsDocument(s: string)
  {
    |s| >= |SvgStart| + |SvgEnd| && s[..|SvgStart|] == SvgStart && s[|s| - |SvgEnd|..] == SvgEnd
  }

  lemma BuildIsDocument(b: FaceBuilder)
    ensures IsDocument(Build(b))
  {
    BuildParts(b);
    FirstAndLastOfSeven(SvgStart, EyeFragment(b.eye), EyeBrowsFragment(b.eyeBrows),
                        MouthFragment(b.mouth), Nose, Whiskers, SvgEnd);
  }

  lemma FirstAndLastOfSeven(a: string, b: string, c: string, d: string, e: string, f: string,
                            g: string)
    ensures var s := Concat([a, b, c, d, e, f, g]);
            |s| >= |a| + |g| && s[..|a|] == a && s[|s| - |g|..] == g
  {
    ConcatSeven(a, b, c, d, e, f, g);
    Slices(a, b + c + d + e + f, g);
    assert a + b + c + d + e + f + g == a + (b + c + d + e + f) + g;
  }

  lemma {:induction false} ConcatAppend(p: seq<string>, q: seq<string>)
    ensures Concat(p + q) == Concat(p) + Concat(q)
    decreases |q|
  {
    if q != [] {
      var q' := q[..|q| - 1];
      assert p + q == (p + q') + [q[|q| - 1]];
      ConcatSnoc(p + q', q[|q| - 1]);
      ConcatAppend(p, q');
    } else {
      assert p + q == p;
    }
  }

  /** Writing `x` in place of part `k` changes only the text that part
      occupied: what was written before it and after it is kept. */
  lemma ConcatReplace(parts: seq<string>, k: nat, x: string)
    requires k < |parts|
    ensures var at := |Concat(parts[..k])|;
            at + |parts[k]| <= |Concat(parts)| &&
            Concat(parts[k := x]) == Concat(parts)[..at] + x + Concat(parts)[at + |parts[k]|..]
  {
    var head, tail := parts[..k], parts[k + 1..];
    assert parts == head + [parts[k]] + tail;
    assert parts[k := x] == head + [x] + tail;
    ConcatSnoc([], parts[k]);
    ConcatSnoc([], x);
    ConcatAppend(head, [parts[k]]);
    ConcatAppend(head + [parts[k]], tail);
    ConcatAppend(head, [x]);
    ConcatAppend(head + [x], tail);
    Slices(Concat(head), parts[k], Concat(tail));
  }

  lemma ConcatThree(a: string, b: string, c: string)
    ensures Concat([a, b, c]) == a + b + c
  {
    ConcatSnoc([], a);
    assert [] + [a] == [a];
    ConcatSnoc([a], b);
    assert [a] + [b] == [a, b];
    ConcatSnoc([a, b], c);
    assert [a, b] + [c] == [a, b, c];
  }

  /** `ConcatReplace` for the fourth of seven parts. */
  lemma ReplaceFourth(a: string, b: string, c: string, d: string, e: string, f: string, g: string,
                      x: string)
    ensures var s := Concat([a, b, c, d, e, f, g]);
            |a| + |b| + |c| + |d| <= |s| &&
            Concat([a, b, c, x, e, f, g]) == s[..|a| + |b| + |c|] + x + s[|a| + |b| + |c| + |d|..]
  {
    var parts := [a, b, c, d, e, f, g];
    assert parts[3 := x] == [a, b, c, x, e, f, g];
    assert parts[..3] == [a, b, c];
    ConcatThree(a, b, c);
    ConcatReplace(parts, 3, x);
  }

  /** `ConcatReplace` for the second of seven parts. */
  lemma ReplaceSecond(a: string, b: string, c: string, d: string, e: string, f: string, g: string,
                      x: string)
    ensures var s := Concat([a, b, c, d, e, f, g]);
            |a| + |b| <= |s| &&
            Concat([a, x, c, d, e, f, g]) == s[..|a|] + x + s[|a| + |b|..]
  {
    var parts := [a, b, c, d, e, f, g];
    assert parts[1 := x] == [a, x, c, d, e, f, g];
    assert parts[..1] == [] + [a];
    ConcatSnoc([], a);
    ConcatReplace(parts, 1, x);
  }

  /** `ConcatReplace` for the third of seven parts. */
  lemma ReplaceThird(a: string, b: string, c: string, d: string, e: string, f: string, g: string,
                     x: string)
    ensures var s := Concat([a, b, c, d, e, f, g]);
            |a| + |b| + |c| <= |s| &&
            Concat([a, b, x, d, e, f, g]) == s[..|a| + |b|] + x + s[|a| + |b| + |c|..]
  {
    var parts := [a, b, c, d, e, f, g];
    assert parts[2 := x] == [a, b, x, d, e, f, g];
    assert parts[..2] == [a] + [b] && [] + [a] == [a];
    ConcatSnoc([], a);
    ConcatSnoc([a], b);
    ConcatReplace(parts, 2, x);
  }

  /** Changing only the mouth replaces only the mouth slot: everything before
      and after it is the same text. */
  lemma MouthSlotOnly(b: FaceBuilder, m: Mouth)
    ensures |SvgStart| + |EyeFragment(b.eye)| + |EyeBrowsFragment(b.eyeBrows)| + |MouthFragment(b.mouth)|
            <= |Build(b)|
    ensures var at := |SvgStart| + |EyeFragment(b.eye)| + |EyeBrowsFragment(b.eyeBrows)|;
            Build(SetMouth(b, m))
            == Build(b)[..at] + MouthFragment(m) + Build(b)[at + |MouthFragment(b.mouth)|..]
  {
    BuildParts(b);
    BuildParts(SetMouth(b, m));
    ReplaceFourth(SvgStart, EyeFragment(b.eye), EyeBrowsFragment(b.eyeBrows), MouthFragment(b.mouth),
                  Nose, Whiskers, SvgEnd, MouthFragment(m));
  }

  /** Changing only the eyebrows replaces only the eyebrow slot. */
  lemma EyeBrowsSlotOnly(b: FaceBuilder, e: EyeBrows)
    ensures |SvgStart| + |EyeFragment(b.eye)| + |EyeBrowsFragment(b.eyeBrows)| <= |Build(b)|
    ensures var at := |SvgStart| + |EyeFragment(b.eye)|;
            Build(SetEyeBrows(b, e))
            == Build(b)[..at] + EyeBrowsFragment(e) + Build(b)[at + |EyeBrowsFragment(b.eyeBrows)|..]
  {
    BuildParts(b);
    BuildParts(SetEyeBrows(b, e));
    ReplaceThird(SvgStart, EyeFragment(b.eye), EyeBrowsFragment(b.eyeBrows), MouthFragment(b.mouth),
                 Nose, Whiskers, SvgEnd, EyeBrowsFragment(e));
  }

  /** Changing only the eyes replaces only the eye slot. */
  lemma EyeSlotOnly(b: FaceBuilder, e: Eye)
    ensures |SvgStart| + |EyeFragment(b.eye)| <= |Build(b)|
    ensures Build(SetEye(b, e))
            == Build(b)[..|SvgStart|] + EyeFragment(e) + Build(b)[|SvgStart| + |EyeFragment(b.eye)|..]
  {
    BuildParts(b);
    BuildParts(SetEye(b, e));
    ReplaceSecond(SvgStart, EyeFragment(b.eye), EyeBrowsFragment(b.eyeBrows), MouthFragment(b.mouth),
                  Nose, Whiskers, SvgEnd, EyeFragment(e));
  }

  // ---------------------------------------------------------------------------
  // Pupils

  predicate OccursAt(s: string, t: string, i: int)
  {
    0 <= i <= |s| - |t| && s[i..i + |t|] == t
  }

  /** `t` occurs somewhere in `s`. */
  ghost predicate Contains(s: string, t: string)
  {
    exists i :: OccursAt(s, t, i)
  }

  lemma ContainsParts(x: string, y: string)
    ensures Contains(x + y, x) && Contains(x + y, y)
  {
    Slices([], x, y);
    assert OccursAt(x + y, x, 0);
    Slices(x, y, []);
    assert OccursAt(x + y, y, |x|);
  }

  lemma LeftPupilNotInRight()
    ensures !Contains(RightPupil, LeftPupil)
  {
    assert |RightPupil| == |LeftPupil| + 1;
    forall i | 0 <= i <= 1
      ensures !OccursAt(RightPupil, LeftPupil, i)
    {
      if i == 0 {
        assert RightPupil[i..i + |LeftPupil|][12] == RightPupil[12] == '1';
        assert LeftPupil[12] == '6';
      } else {
        assert RightPupil[i..i + |LeftPupil|][0] == RightPupil[1] == 'c';
        assert LeftPupil[0] == '<';
      }
    }
  }

  /** An open eye shows the left (cx=65) circle exactly when the left pupil is
      the default one, and the right (cx=135) circle exactly when the right one
      is; with both suppressed the eye fragment is empty. */
  lemma OpenEyePupils(l: Pupils, r: Pupils)
    ensures Contains(EyeFragment(Open(l, r)), LeftPupil) <==> l == Pupils.Default
    ensures Contains(EyeFragment(Open(l, r)), RightPupil) <==> r == Pupils.Default
    ensures l == Pupils.None && r == Pupils.None ==> EyeFragment(Open(l, r)) == ""
  {
    match (l, r)
    case (Default, Default) =>
      ContainsParts(LeftPupil, RightPupil);
    case (Default, None) =>
      assert EyeFragment(Open(l, r)) == LeftPupil + [];
      ContainsParts(LeftPupil, []);
      assert |RightPupil| == |LeftPupil| + 1;
    case (None, Default) =>
      assert EyeFragment(Open(l, r)) == [] + RightPupil;
      ContainsParts([], RightPupil);
      assert [] + RightPupil == RightPupil;
      LeftPupilNotInRight();
    case (None, None) =>
      assert EyeFragment(Open(l, r)) == [];
      assert |LeftPupil| > 0 && |RightPupil| > 0;
  }

  // ---------------------------------------------------------------------------
  // Named faces

  const NormalFace: string := Build(DefaultBuilder())
  const HappyFace: string := Build(SetEyeBrows(SetMouth(DefaultBuilder(), Mouth.Angry), Up))
  const AngryFace: string := Build(SetEyeBrows(SetMouth(DefaultBuilder(), Mouth.Angry), Up))

  /** The builder configuration behind each named face. */
  function Config(f: Face): FaceBuilder
  {
    var normal := f == Normal;
    FaceBuilder(DefaultEye, if normal then DefaultMouth else Mouth.Angry, if normal then DefaultEyeBrows else Up)
  }

  /** `Face::to_svg`: the document of a named face. */
  function ToSvg(f: Face): string
  {
    match f
    case Normal => NormalFace
    case Happy => HappyFace
    case Angry => AngryFace
  }

  /** Every named face is a complete document. */
  lemma ToSvgIsDocument(f: Face)
    ensures IsDocument(ToSvg(f))
  {
    BuildIsDocument(Config(f));
    assert ToSvg(f) == Build(Config(f));
  }

  /** `Normal` is the default build; `Happy` and `Angry` come from the same
      configuration (angry mouth, raised eyebrows), hence the same text. */
  lemma NamedFaceConfigs()
    ensures NormalFace == Build(FaceBuilder(Open(Pupils.Default, Pupils.Default), W, Flat))
    ensures HappyFace == AngryFace == Build(FaceBuilder(Open(Pupils.Default, Pupils.Default), Mouth.Angry, Up))
  {
  }

  /** The happy face does differ from the normal one: raised eyebrows and the
      angry mouth are shorter than flat eyebrows and the `W` mouth. */
  lemma HappyDiffersFromNormal()
    ensures ToSvg(Happy) != ToSvg(Normal)
  {
    FragmentLengthsDiffer(Config(Happy), Config(Normal));
  }

  /** Two configurations with the same eyes whose eyebrow and mouth fragments
      differ in total length build different documents. */
  lemma FragmentLengthsDiffer(b1: FaceBuilder, b2: FaceBuilder)
    requires b1.eye == b2.eye
    requires |EyeBrowsFragment(b1.eyeBrows)| + |MouthFragment(b1.mouth)|
             != |EyeBrowsFragment(b2.eyeBrows)| + |MouthFragment(b2.mouth)|
    ensures Build(b1) != Build(b2)
  {
    BuildLength(b1);
    BuildLength(b2);
  }
}
