/**
 * The pieces of Go's strings package the key space and the command router
 * use: ToLower on ASCII letters, and Split, together with the text a loop
 * builds by appending every piece followed by a separator.
 */
module Text {
  function LowerChar(c: char): (d: char)
    ensures 'A' <= c <= 'Z' ==> 'a' <= d <= 'z' && d as int == c as int + 32
    ensures !('A' <= c <= 'Z') ==> d == c
  {
    if 'A' <= c <= 'Z' then (c as int + 32) as char else c
  }

  /** strings.ToLower, for ASCII letters. */
  function ToLower(s: string): (r: string)
    ensures |r| == |s| && forall i :: 0 <= i < |s| ==> r[i] == LowerChar(s[i])
  {
    if s == [] then [] else [LowerChar(s[0])] + ToLower(s[1..])
  }

  /** Whether sep occurs in s at index i. */
  predicate OccursAt(s: string, sep: string, i: int)
  {
    0 <= i && i + |sep| <= |s| && s[i..i + |sep|] == sep
  }

  /** The first index at which sep occurs in s, or -1 when it does not. */
  function Find(s: string, sep: string): (i: int)
    requires sep != []
    ensures i == -1 || 0 <= i <= |s| - |sep|
    ensures i >= 0 ==> OccursAt(s, sep, i)
    ensures forall j :: 0 <= j && (i < 0 || j < i) ==> !OccursAt(s, sep, j)
    decreases |s|
  {
    if |s| < |sep| then -1
    else if s[..|sep|] == sep then 0
    else
      var i := Find(s[1..], sep);
      assert forall j :: 1 <= j ==> (OccursAt(s, sep, j) <==> OccursAt(s[1..], sep, j - 1)) by {
        forall j | 1 <= j ensures OccursAt(s, sep, j) <==> OccursAt(s[1..], sep, j - 1) {
          OccursShift(s, sep, j);
        }
      }
      if i < 0 then -1 else i + 1
  }

  lemma OccursShift(s: string, sep: string, j: int)
    requires 1 <= j && s != []
    ensures OccursAt(s, sep, j) <==> OccursAt(s[1..], sep, j - 1)
  {
    if j + |sep| <= |s| {
      var a, b := s[j..j + |sep|], s[1..][j - 1..j - 1 + |sep|];
      assert |a| == |b| && forall k :: 0 <= k < |a| ==> a[k] == s[j + k] == b[k];
      assert a == b;
    }
  }

  /** strings.Split: the pieces of s between the occurrences of sep, left to right. */
  function Split(s: string, sep: string): (parts: seq<string>)
    requires sep != []
    ensures |parts| >= 1
    decreases |s|
  {
    var i := Find(s, sep);
    if i < 0 then [s] else [s[..i]] + Split(s[i + |sep|..], sep)
  }

  /** The parts with sep between each two: strings.Join. */
  function Join(parts: seq<string>, sep: string): string
  {
    if parts == [] then ""
    else if |parts| == 1 then parts[0]
    else parts[0] + sep + Join(parts[1..], sep)
  }

  /** A prefix of s ending at or before the first occurrence of sep does not contain sep. */
  lemma FindPrefix(s: string, sep: string, i: int)
    requires sep != [] && 0 <= i <= |s| && forall j :: 0 <= j < i ==> !OccursAt(s, sep, j)
    ensures Find(s[..i], sep) == -1
  {
    var r := Find(s[..i], sep);
    if r >= 0 {
      assert s[..i][r..r + |sep|] == s[r..r + |sep|];
      assert OccursAt(s, sep, r);
    }
  }

  /**
   * strings.Split gives the pieces between the occurrences of sep: joined
   * with sep they are s again, and no piece contains sep.
   */
  lemma {:induction false} SplitJoin(s: string, sep: string)
    requires sep != []
    ensures Join(Split(s, sep), sep) == s
    ensures forall k :: 0 <= k < |Split(s, sep)| ==> Find(Split(s, sep)[k], sep) == -1
    decreases |s|
  {
    var i := Find(s, sep);
    var parts := Split(s, sep);
    if i < 0 {
      assert parts == [s];
    } else {
      var rest := s[i + |sep|..];
      SplitJoin(rest, sep);
      assert parts == [s[..i]] + Split(rest, sep);
      assert Join(parts, sep) == s[..i] + sep + Join(Split(rest, sep), sep);
      assert s == s[..i] + s[i..i + |sep|] + rest;
      FindPrefix(s, sep, i);
      assert forall k :: 1 <= k < |parts| ==> parts[k] == Split(rest, sep)[k - 1];
    }
  }

  /**
   * Conversely, pieces free of the one-character separator c, joined with
   * it, split back into those pieces; empty pieces included.
   */
  lemma {:induction false} JoinSplit(parts: seq<string>, c: char)
    requires parts != [] && forall k :: 0 <= k < |parts| ==> c !in parts[k]
    ensures Split(Join(parts, [c]), [c]) == parts
    decreases |parts|
  {
    if |parts| == 1 {
      FindNone(parts[0], [c]);
    } else {
      assert forall k :: 0 <= k < |parts| - 1 ==> parts[1..][k] == parts[k + 1];
      JoinSplit(parts[1..], c);
      JoinSplitStep(parts, c);
    }
  }

  lemma JoinSplitStep(parts: seq<string>, c: char)
    requires |parts| >= 2 && c !in parts[0]
    requires Split(Join(parts[1..], [c]), [c]) == parts[1..]
    ensures Split(Join(parts, [c]), [c]) == parts
  {
    hide Split, Find, OccursAt;
    assert Join(parts, [c]) == parts[0] + [c] + Join(parts[1..], [c]);
    SplitFront(parts[0], [c], Join(parts[1..], [c]));
    assert [parts[0]] + parts[1..] == parts;
  }

  /** A piece that does not contain the first character of sep cannot contain sep. */
  lemma FindAfterPiece(p: string, sep: string, rest: string)
    requires sep != [] && forall k :: 0 <= k < |p| ==> p[k] != sep[0]
    ensures Find(p + sep + rest, sep) == |p|
  {
    var s := p + sep + rest;
    assert OccursAt(s, sep, |p|) by {
      assert s[|p|..|p| + |sep|] == sep;
    }
    forall j | 0 <= j < |p| ensures !OccursAt(s, sep, j) {
      assert s[j] == p[j];
    }
  }

  /** A piece free of sep's first character is a single part. */
  lemma FindNone(p: string, sep: string)
    requires sep != [] && forall k :: 0 <= k < |p| ==> p[k] != sep[0]
    ensures Find(p, sep) == -1
  {
    forall j | 0 <= j ensures !OccursAt(p, sep, j) {
      if j < |p| {
        assert p[j] != sep[0];
      }
    }
  }

  /** A piece free of sep's first character, then sep: the piece is the first part. */
  lemma SplitFront(p: string, sep: string, rest: string)
    requires sep != [] && sep[0] !in p
    ensures Split(p + sep + rest, sep) == [p] + Split(rest, sep)
  {
    FindAfterPiece(p, sep, rest);
    assert (p + sep + rest)[..|p|] == p;
    assert (p + sep + rest)[|p| + |sep|..] == rest;
  }

  /** A character of s is c exactly when sep = [c] occurs in s. */
  lemma FindChar(s: string, c: char)
    ensures Find(s, [c]) >= 0 <==> c in s
  {
    if c in s {
      var j :| 0 <= j < |s| && s[j] == c;
      assert s[j..j + 1] == [c];
      assert OccursAt(s, [c], j);
    }
    var i := Find(s, [c]);
    if i >= 0 {
      assert s[i] == s[i..i + 1][0];
    }
  }

  /** Every piece followed by sep, one after another. */
  function Terminated(ps: seq<string>, sep: string): string
  {
    if ps == [] then "" else ps[0] + sep + Terminated(ps[1..], sep)
  }

  /** One more piece at the end. */
  lemma {:induction false} TerminatedSnoc(ps: seq<string>, p: string, sep: string)
    ensures Terminated(ps + [p], sep) == Terminated(ps, sep) + p + sep
    decreases |ps|
  {
    if ps != [] {
      assert (ps + [p])[1..] == ps[1..] + [p];
      TerminatedSnoc(ps[1..], p, sep);
    }
  }

  /** Splitting text built of pieces free of sep's first character gives the pieces back, then "". */
  lemma {:induction false} SplitTerminated(ps: seq<string>, sep: string)
    requires sep != [] && forall i :: 0 <= i < |ps| ==> sep[0] !in ps[i]
    ensures Split(Terminated(ps, sep), sep) == ps + [""]
    decreases |ps|
  {
    if ps != [] {
      assert forall i :: 0 <= i < |ps| - 1 ==> ps[1..][i] == ps[i + 1];
      SplitTerminated(ps[1..], sep);
      SplitTerminatedStep(ps, sep);
    }
  }

  lemma SplitTerminatedStep(ps: seq<string>, sep: string)
    requires sep != [] && ps != [] && sep[0] !in ps[0]
    requires Split(Terminated(ps[1..], sep), sep) == ps[1..] + [""]
    ensures Split(Terminated(ps, sep), sep) == ps + [""]
  {
    hide Split, Find, OccursAt;
    var p := ps[0];
    var rest := Terminated(ps[1..], sep);
    assert Terminated(ps, sep) == p + sep + rest;
    SplitFront(p, sep, rest);
    assert [p] + (ps[1..] + [""]) == ps + [""];
  }

  /** A character that is in no piece and not in sep is not in the text built from them. */
  lemma {:induction false} TerminatedAvoids(ps: seq<string>, sep: string, c: char)
    requires c !in sep && forall i :: 0 <= i < |ps| ==> c !in ps[i]
    ensures c !in Terminated(ps, sep)
    decreases |ps|
  {
    if ps != [] {
      TerminatedAvoids(ps[1..], sep, c);
      assert Terminated(ps, sep) == ps[0] + sep + Terminated(ps[1..], sep);
    }
  }

  /** Unless there are no pieces, the text ends with sep. */
  lemma {:induction false} TerminatedEnds(ps: seq<string>, sep: string)
    requires ps != [] && sep != []
    ensures var t := Terminated(ps, sep); |t| >= |sep| && t[|t| - 1] == sep[|sep| - 1]
    decreases |ps|
  {
    var t := Terminated(ps, sep);
    assert t == ps[0] + sep + Terminated(ps[1..], sep);
    if ps[1..] != [] {
      TerminatedEnds(ps[1..], sep);
    }
  }

  /** Two parts around one separator, neither holding its first character. */
  lemma SplitPair(a: string, sep: string, b: string)
    requires sep != [] && sep[0] !in a && sep[0] !in b
    ensures Split(a + sep + b, sep) == [a, b]
  {
    SplitFront(a, sep, b);
    FindNone(b, sep);
  }
}
