/** Relative file paths and the percent-encoded strings that name them. */
module Paths {
  import opened Prelude

  type Segment = s: string | s != "" && '/' !in s witness "a"

  type Path = seq<Segment>

  /** A percent-coding: only its round trip (section 2.1 of RFC 3986) matters here. */
  datatype PercentCoding = PercentCoding(encode: string -> string, decode: string -> Option<string>)
  {
    ghost predicate Lawful() {
      forall s :: decode(encode(s)) == Some(s)
    }

    /** An escape is three characters and stands for at most one. */
    ghost predicate Shrinks() {
      forall s :: decode(s).Some? && decode(s).value != s ==> |decode(s).value| + 2 <= |s|
    }
  }

  function Join(p: Path): string {
    if p == [] then ""
    else if |p| == 1 then p[0]
    else p[0] + "/" + Join(p[1..])
  }

  predicate Contains(s: string, pat: string)
    decreases |s|
  {
    |pat| <= |s| && (pat <= s || (s != "" && Contains(s[1..], pat)))
  }

  /** Rust's `split`: never empty, and "" splits into one empty piece. */
  function SplitOn(s: string, sep: char): (r: seq<string>)
    ensures r != [] && forall piece :: piece in r ==> sep !in piece
  {
    if s == "" then [""]
    else
      var rest := SplitOn(s[1..], sep);
      if s[0] == sep then [""] + rest
      else [[s[0]] + rest[0]] + rest[1..]
  }

  function Split(s: string): (r: seq<string>)
    ensures r != [] && forall piece :: piece in r ==> '/' !in piece
  {
    SplitOn(s, '/')
  }

  predicate BadSegment(seg: string) {
    ".." <= seg || '\\' in seg
  }

  predicate Refused(decoded: string) {
    exists i :: 0 <= i < |Split(decoded)| && BadSegment(Split(decoded)[i])
  }

  /** The pieces that move a path: pushing "" or "." onto a path changes nothing. */
  function Plain(segs: seq<string>): Path
    requires forall seg :: seg in segs ==> '/' !in seg
  {
    if segs == [] then []
    else
      var rest := Plain(segs[1..]);
      if segs[0] == "" || segs[0] == "." then rest else [segs[0]] + rest
  }

  /** Where a save is aimed. `dirOnly` records a trailing "/" or ".", which only a directory satisfies. */
  datatype Target = Target(path: Path, dirOnly: bool)

  function SaveTarget(coding: PercentCoding, tail: string): Option<Target> {
    match coding.decode(tail)
    case None => None
    case Some(decoded) =>
      if Refused(decoded) then None
      else
        var segs := Split(decoded);
        var last := segs[|segs| - 1];
        Some(Target(Plain(segs), last == "" || last == "."))
  }

  // What is refused, character by character

  lemma {:induction false} FirstPiece(s: string, sep: char)
    ensures var first := SplitOn(s, sep)[0]; first <= s && (|first| == |s| || s[|first|] == sep)
  {
    if s != "" {
      FirstPiece(s[1..], sep);
    }
  }

  lemma PrefixInFirstPiece(s: string, sep: char, pat: string)
    requires sep !in pat
    ensures pat <= s <==> pat <= SplitOn(s, sep)[0]
  {
    FirstPiece(s, sep);
    var first := SplitOn(s, sep)[0];
    assert pat <= s ==> forall i :: 0 <= i < |pat| ==> pat[i] == s[i];
    assert |first| < |s| ==> s[|first|] !in pat;
  }

  ghost predicate DotsFrom(pieces: seq<string>, k: nat) {
    exists i :: k <= i < |pieces| && ".." <= pieces[i]
  }

  /** A piece after the first starts with ".." exactly if "/.." occurs. */
  lemma {:induction false} LaterDots(s: string)
    ensures DotsFrom(Split(s), 1) <==> Contains(s, "/..")
  {
    if s != "" {
      var c, rest := s[0], Split(s[1..]);
      LaterDots(s[1..]);
      PrefixInFirstPiece(s[1..], '/', "..");
      if c == '/' {
        assert Split(s) == [""] + rest;
        assert "/.." <= s <==> ".." <= s[1..];
        assert forall i :: 0 <= i < |rest| ==> Split(s)[i + 1] == rest[i];
        assert DotsFrom(Split(s), 1) <==> DotsFrom(rest, 0);
      } else {
        assert Split(s) == [[c] + rest[0]] + rest[1..];
        assert forall i :: 0 < i < |rest| ==> Split(s)[i] == rest[i];
      }
    }
  }

  ghost predicate CharInSome(pieces: seq<string>, c: char) {
    exists i :: 0 <= i < |pieces| && c in pieces[i]
  }

  lemma {:induction false} CharInPieces(s: string, sep: char, c: char)
    requires c != sep
    ensures c in s <==> CharInSome(SplitOn(s, sep), c)
  {
    if s != "" {
      var pieces, rest := SplitOn(s, sep), SplitOn(s[1..], sep);
      CharInPieces(s[1..], sep, c);
      assert c in s <==> c == s[0] || c in s[1..];
      if s[0] == sep {
        assert forall i :: 0 <= i < |rest| ==> pieces[i + 1] == rest[i];
      } else {
        assert pieces == [[s[0]] + rest[0]] + rest[1..];
        assert forall i :: 0 < i < |rest| ==> pieces[i] == rest[i];
        assert c in pieces[0] <==> c == s[0] || c in rest[0];
      }
    }
  }

  /** Refused is what holds a backslash or has ".." at the start of a piece. */
  lemma RefusedExactlyWhen(s: string)
    ensures Refused(s) <==> '\\' in s || ".." <= s || Contains(s, "/..")
  {
    var pieces := Split(s);
    CharInPieces(s, '/', '\\');
    PrefixInFirstPiece(s, '/', "..");
    LaterDots(s);
    hide Split, Contains;
    if Refused(s) {
      var i :| 0 <= i < |pieces| && BadSegment(pieces[i]);
    }
    if CharInSome(pieces, '\\') {
      var i :| 0 <= i < |pieces| && '\\' in pieces[i];
      assert BadSegment(pieces[i]);
    }
    if DotsFrom(pieces, 1) {
      var i :| 1 <= i < |pieces| && ".." <= pieces[i];
      assert BadSegment(pieces[i]);
    }
    if ".." <= pieces[0] {
      assert BadSegment(pieces[0]);
    }
  }

  /** The request path rule of the static file filter: a loop over the pieces with an early return. */
  method SanitizePath(coding: PercentCoding, tail: string) returns (r: Option<string>)
    ensures r == match coding.decode(tail)
                 case None => None
                 case Some(decoded) => if Refused(decoded) then None else Some(decoded)
    ensures coding.decode(tail).Some? ==>
              var s := coding.decode(tail).value;
              r == if '\\' in s || ".." <= s || Contains(s, "/..") then None else Some(s)
  {
    if coding.decode(tail).Some? {
      RefusedExactlyWhen(coding.decode(tail).value);
    }
    var decoded := coding.decode(tail);
    if decoded.None? {
      return None;
    }
    var segs := Split(decoded.value);
    var i := 0;
    while i < |segs|
      invariant 0 <= i <= |segs|
      invariant forall j :: 0 <= j < i ==> !BadSegment(segs[j])
    {
      if ".." <= segs[i] {
        return None;
      } else if '\\' in segs[i] {
        return None;
      }
      i := i + 1;
    }
    r := Some(decoded.value);
  }

  /** A path whose pieces are plain names, as a build tool writes them. */
  predicate IsPlain(p: Path) {
    && p != []
    && forall i :: 0 <= i < |p| ==> p[i] != "." && !BadSegment(p[i])
  }

  lemma {:induction false} SplitPiece(piece: string, rest: string, sep: char)
    requires sep !in piece
    ensures SplitOn(piece + [sep] + rest, sep) == [piece] + SplitOn(rest, sep)
    ensures SplitOn(piece, sep) == [piece]
  {
    var s := piece + [sep] + rest;
    if piece == "" {
      assert s[1..] == rest;
    } else {
      assert s[1..] == piece[1..] + [sep] + rest;
      SplitPiece(piece[1..], rest, sep);
      assert [piece[0]] + piece[1..] == piece;
    }
  }

  /** Splitting undoes joining. */
  lemma {:induction false} SplitJoin(p: Path)
    requires p != []
    ensures Split(Join(p)) == p
  {
    if |p| == 1 {
      SplitPiece(p[0], "", '/');
    } else {
      SplitPiece(p[0], Join(p[1..]), '/');
      SplitJoin(p[1..]);
    }
  }

  lemma {:induction false} PlainIdentity(p: Path)
    requires forall i :: 0 <= i < |p| ==> p[i] != "."
    ensures Plain(p) == p
  {
    if p != [] {
      PlainIdentity(p[1..]);
      assert p == [p[0]] + p[1..];
    }
  }

  /** Different paths have different names. */
  lemma JoinInjective(p: Path, q: Path)
    requires Join(p) == Join(q)
    ensures p == q
  {
    if p != [] && q != [] {
      SplitJoin(p);
      SplitJoin(q);
    }
  }

  /** An absolute request path splits into an empty piece and the path itself. */
  lemma SplitAbsolute(p: Path)
    requires p != []
    ensures Split("/" + Join(p)) == [""] + p
  {
    hide Refused;
    SplitPiece("", Join(p), '/');
    assert "" + "/" + Join(p) == "/" + Join(p);
    SplitJoin(p);
  }

  lemma PlainAbsolute(p: Path, segs: seq<string>)
    requires IsPlain(p) && segs == [""] + p
    ensures Plain(segs) == p
  {
    assert segs[1..] == p;
    PlainIdentity(p);
  }

  lemma PlainNotRefused(p: Path)
    requires IsPlain(p)
    ensures !Refused("/" + Join(p))
  {
    SplitAbsolute(p);
    var segs: seq<string> := [""] + p;
    forall i | 0 <= i < |segs| ensures !BadSegment(segs[i]) {
      if i > 0 {
        assert segs[i] == p[i - 1];
      }
    }
  }

  /** Saving under the encoded absolute name of a plain path is aimed at exactly that path. */
  lemma SaveTargetOfPlain(coding: PercentCoding, p: Path)
    requires coding.Lawful() && IsPlain(p)
    ensures SaveTarget(coding, coding.encode("/" + Join(p))) == Some(Target(p, false))
  {
    var decoded := "/" + Join(p);
    assert coding.decode(coding.encode(decoded)) == Some(decoded);
    PlainNotRefused(p);
    SplitAbsolute(p);
    PlainAbsolute(p, [""] + p);
    assert ([""] + p)[|p|] == p[|p| - 1];
  }

  // How long names are

  /** Every piece with a separator. */
  function Width(pieces: seq<string>): nat {
    if pieces == [] then 0 else |pieces[0]| + 1 + Width(pieces[1..])
  }

  lemma {:induction false} SplitWidth(s: string, sep: char)
    ensures Width(SplitOn(s, sep)) == |s| + 1
  {
    if s != "" {
      SplitWidth(s[1..], sep);
      var rest := SplitOn(s[1..], sep);
      assert ([""] + rest)[1..] == rest;
      assert ([[s[0]] + rest[0]] + rest[1..])[1..] == rest[1..];
    }
  }

  lemma {:induction false} PlainWidth(pieces: seq<string>)
    requires pieces != [] && forall piece :: piece in pieces ==> '/' !in piece
    ensures |Join(Plain(pieces))| + 1 <= Width(pieces)
  {
    if |pieces| > 1 {
      PlainWidth(pieces[1..]);
    }
    var p := Plain(pieces);
    assert p != [] && pieces[0] != "" && pieces[0] != "." ==> p[1..] == Plain(pieces[1..]);
  }

  /** The path a string names is no longer than the string. */
  lemma PlainIsNoLonger(s: string)
    ensures |Join(Plain(Split(s)))| <= |s|
  {
    SplitWidth(s, '/');
    PlainWidth(Split(s));
  }

  lemma {:induction false} PlainHasNoDot(pieces: seq<string>, i: nat)
    requires (forall piece :: piece in pieces ==> '/' !in piece) && i < |Plain(pieces)|
    ensures Plain(pieces)[i] != "."
  {
    if pieces[0] == "" || pieces[0] == "." {
      PlainHasNoDot(pieces[1..], i);
    } else if i > 0 {
      PlainHasNoDot(pieces[1..], i - 1);
    }
  }

  lemma {:induction false} JoinAppend(p: Path, last: Segment)
    requires p != []
    ensures Join(p + [last]) == Join(p) + "/" + last
  {
    assert (p + [last])[1..] == p[1..] + [last];
    if |p| == 1 {
      assert (p + [last])[1..] == [last];
    } else {
      JoinAppend(p[1..], last);
    }
  }

  // What a save is aimed at, character by character

  lemma {:induction false} PlainIsFromPieces(pieces: seq<string>, i: nat)
    requires (forall piece :: piece in pieces ==> '/' !in piece) && i < |Plain(pieces)|
    ensures Plain(pieces)[i] in pieces
  {
    if pieces[0] == "" || pieces[0] == "." {
      PlainIsFromPieces(pieces[1..], i);
    } else if i > 0 {
      PlainIsFromPieces(pieces[1..], i - 1);
    }
  }

  /** The path is made piece by piece, in order. */
  lemma {:induction false} PlainOfTwo(front: seq<string>, back: seq<string>)
    requires forall piece :: piece in front + back ==> '/' !in piece
    ensures (forall piece :: piece in front ==> piece in front + back)
    ensures (forall piece :: piece in back ==> piece in front + back)
    ensures Plain(front + back) == Plain(front) + Plain(back)
  {
    assert forall piece :: piece in front || piece in back ==> piece in front + back;
    if front == [] {
      assert front + back == back;
    } else {
      assert (front + back)[1..] == front[1..] + back;
      PlainOfTwo(front[1..], back);
    }
  }

  lemma {:induction false} LastPiece(s: string, sep: char)
    ensures var pieces := SplitOn(s, sep);
            var last := pieces[|pieces| - 1];
            && |last| <= |s| && last == s[|s| - |last|..]
            && (|last| == |s| || s[|s| - |last| - 1] == sep)
            && (|pieces| == 1 <==> |last| == |s|)
  {
    if s != "" {
      LastPiece(s[1..], sep);
      var pieces, rest := SplitOn(s, sep), SplitOn(s[1..], sep);
      if s[0] == sep {
        assert pieces == [""] + rest;
      } else if |rest| > 1 {
        assert pieces[|pieces| - 1] == rest[|rest| - 1];
      } else {
        assert pieces == [[s[0]] + rest[0]];
      }
    }
  }

  ghost predicate EndsWith(s: string, end: string) {
    |end| <= |s| && s[|s| - |end|..] == end
  }

  lemma TargetStaysInside(s: string)
    requires !Refused(s)
    ensures forall i :: 0 <= i < |Plain(Split(s))| ==>
              var piece := Plain(Split(s))[i]; piece != "." && !(".." <= piece) && '\\' !in piece
  {
    hide Split, Plain;
    forall i | 0 <= i < |Plain(Split(s))|
      ensures var piece := Plain(Split(s))[i]; piece != "." && !(".." <= piece) && '\\' !in piece
    {
      PlainHasNoDot(Split(s), i);
      PlainIsFromPieces(Split(s), i);
      var k :| 0 <= k < |Split(s)| && Split(s)[k] == Plain(Split(s))[i];
      assert !BadSegment(Split(s)[k]);
    }
  }

  lemma DirectoryName(s: string)
    ensures var pieces := Split(s);
            var last := pieces[|pieces| - 1];
            last == "" || last == "." <==> s == "" || s == "." || EndsWith(s, "/") || EndsWith(s, "/.")
  {
    LastPiece(s, '/');
    var pieces := Split(s);
    var last := pieces[|pieces| - 1];
    assert '/' !in last;
    hide Split;
    if |s| > 0 {
      assert last != "" ==> last[|last| - 1] == s[|s| - 1];
    }
    if |s| > 1 {
      assert |last| > 1 ==> last[|last| - 2] == s[|s| - 2];
    }
  }

  /**
   Which names a save refuses, and what it is aimed at otherwise: never at anything above or beside the version
   directory. A name that ends in a slash or in a piece "." can only stand for a directory.
   */
  lemma SaveTargetExactlyWhen(coding: PercentCoding, tail: string)
    ensures coding.decode(tail).None? ==> SaveTarget(coding, tail).None?
    ensures coding.decode(tail).Some? ==>
              var s := coding.decode(tail).value;
              && (SaveTarget(coding, tail).None? <==> '\\' in s || ".." <= s || Contains(s, "/.."))
              && (SaveTarget(coding, tail).Some? ==>
                    var t := SaveTarget(coding, tail).value;
                    && (forall i :: 0 <= i < |t.path| ==>
                          t.path[i] != "." && !(".." <= t.path[i]) && '\\' !in t.path[i])
                    && (t.dirOnly <==> s == "" || s == "." || EndsWith(s, "/") || EndsWith(s, "/.")))
  {
    if coding.decode(tail).Some? {
      var s := coding.decode(tail).value;
      RefusedExactlyWhen(s);
      if !Refused(s) {
        TargetStaysInside(s);
        LastPiece(s, '/');
        DirectoryName(s);
      }
    }
    hide Contains;
  }
}
