/**
 * The three regular expressions of the parser, written out as matchers that follow the
 * JavaScript engine's backtracking (graphEditorModule.js lines 398, 419 and 432).
 * They are applied to a line that has already been trimmed.
 */
module Patterns {

  import opened JsText
  import opened Wrappers

  /** End of the run matched by `[A-Za-z0-9_]*` starting at position `i`. */
  function WordEnd(s: string, i: nat): (j: nat)
    requires i <= |s|
    ensures i <= j <= |s|
    ensures forall k :: i <= k < j ==> IsWordChar(s[k])
    ensures j == |s| || !IsWordChar(s[j])
    decreases |s| - i
  {
    if i < |s| && IsWordChar(s[i]) then WordEnd(s, i + 1) else i
  }

  /** End of the run matched by `\s*` starting at position `i`. */
  function SpaceEnd(s: string, i: nat): (j: nat)
    requires i <= |s|
    ensures i <= j <= |s|
    ensures forall k :: i <= k < j ==> IsSpace(s[k])
    ensures j == |s| || !IsSpace(s[j])
    decreases |s| - i
  {
    if i < |s| && IsSpace(s[i]) then SpaceEnd(s, i + 1) else i
  }

  lemma {:induction false} WordEndOf(s: string, i: nat, j: nat)
    requires i <= j <= |s|
    requires forall k :: i <= k < j ==> IsWordChar(s[k])
    requires j == |s| || !IsWordChar(s[j])
    ensures WordEnd(s, i) == j
    decreases j - i
  {
    if i < j {
      WordEndOf(s, i + 1, j);
    }
  }

  lemma SliceWord(s: string, i: nat, j: nat)
    requires i < j <= |s|
    requires forall k :: i <= k < j ==> IsWordChar(s[k])
    ensures IsWord(s[i..j])
  {
  }

  lemma SliceClean(s: string, i: nat, j: nat)
    requires i <= j <= |s|
    requires forall k :: i <= k < j ==> !IsLineTerminator(s[k])
    ensures NoLineTerminator(s[i..j])
  {
  }

  lemma PrefixWord(s: string, n: nat)
    requires 0 < n <= |s|
    requires forall k :: 0 <= k < n ==> IsWordChar(s[k])
    ensures IsWord(s[..n]) && StartsWith(s, s[..n])
  {
  }

  /**
   * What the edge pattern needs from position `i` on: `\s*-->\s*` followed by the first
   * character of the target id.
   */
  predicate ArrowAt(s: string, i: nat)
    requires i <= |s|
  {
    var a := SpaceEnd(s, i);
    a + 3 <= |s| && s[a] == '-' && s[a + 1] == '-' && s[a + 2] == '>' &&
    var b := SpaceEnd(s, a + 3);
    b < |s| && IsWordChar(s[b])
  }

  /** A position where the lazy label `(.*?)\]` may stop: a `]`, followed by an arrow if one is needed. */
  predicate CanClose(s: string, k: nat, needArrow: bool)
    requires k < |s|
  {
    s[k] == ']' && (needArrow ==> ArrowAt(s, k + 1))
  }

  /**
   * The lazy group `\[(.*?)\]`, scanning from `i`, just after the `[`: the first position
   * where it may stop, as long as no line terminator (which `.` refuses) comes first.
   */
  function CloseAt(s: string, i: nat, needArrow: bool): (r: Option<nat>)
    requires i <= |s|
    ensures r.Some? ==> i <= r.value < |s| && CanClose(s, r.value, needArrow)
    ensures r.Some? ==> forall j :: i <= j < r.value ==> !IsLineTerminator(s[j])
    ensures r.Some? ==> forall j {:trigger CanClose(s, j, needArrow)} :: i <= j < r.value ==> !CanClose(s, j, needArrow)
    ensures r.None? ==> forall k {:trigger CanClose(s, k, needArrow)} :: i <= k < |s| && CanClose(s, k, needArrow) ==>
                          exists j :: i <= j < k && IsLineTerminator(s[j])
    decreases |s| - i
  {
    if i == |s| || IsLineTerminator(s[i]) then
      None
    else if CanClose(s, i, needArrow) then
      Some(i)
    else
      CloseAt(s, i + 1, needArrow)
  }

  /** The groups of a match of the edge pattern; an absent label is `None`. */
  datatype EdgeMatch = EdgeMatch(fromId: string, fromLabel: Option<string>, toId: string, toLabel: Option<string>)

  /** The rest of the edge pattern from position `i`, where the arrow is known to follow: the target id and its optional label. */
  function MatchTarget(line: string, fromId: string, fromLabel: Option<string>, i: nat): (m: EdgeMatch)
    requires i <= |line| && ArrowAt(line, i)
    ensures m.fromId == fromId && m.fromLabel == fromLabel && IsWord(m.toId)
    ensures m.toLabel.Some? ==> NoLineTerminator(m.toLabel.value)
  {
    var a := SpaceEnd(line, i);
    var b := SpaceEnd(line, a + 3);
    var c := WordEnd(line, b);
    SliceWord(line, b, c);
    var toLabel :=
      if c < |line| && line[c] == '[' then
        match CloseAt(line, c + 1, false)
        case Some(k) =>
          SliceClean(line, c + 1, k);
          Some(line[c + 1..k])
        case None => None
      else None;
    EdgeMatch(fromId, fromLabel, line[b..c], toLabel)
  }

  /**
   * The groups `MatchTarget` reads: the target id is the whole run of word characters after the
   * arrow and its spaces, and its label is present exactly when a `[` follows and the lazy group
   * finds its `]`, and is then the text up to that `]`.
   */
  lemma MatchTargetGroups(line: string, fromId: string, fromLabel: Option<string>, i: nat)
    requires i <= |line| && ArrowAt(line, i)
    ensures var m := MatchTarget(line, fromId, fromLabel, i);
      var b := SpaceEnd(line, SpaceEnd(line, i) + 3); var c := b + |m.toId|;
      c <= |line| && line[b..c] == m.toId && (c == |line| || !IsWordChar(line[c])) &&
      (m.toLabel.Some? <==> c < |line| && line[c] == '[' && CloseAt(line, c + 1, false).Some?) &&
      (m.toLabel.Some? ==>
        (CloseAt(line, c + 1, false) == Some(c + 1 + |m.toLabel.value|) &&
         line[c + 1..c + 1 + |m.toLabel.value|] == m.toLabel.value))
  {
  }

  /**
   * `/^([A-Za-z0-9_]+)(?:\[(.*?)\])?\s*--\>\s*([A-Za-z0-9_]+)(?:\[(.*?)\])?/`: ids are maximal
   * runs of word characters, each label is the shortest text up to a `]` after which the rest
   * still matches, and whatever follows the target is ignored.
   */
  function MatchEdge(line: string): (r: Option<EdgeMatch>)
    ensures r.Some? ==> IsWord(r.value.fromId) && StartsWith(line, r.value.fromId) && IsWord(r.value.toId)
    ensures r.Some? && r.value.fromLabel.Some? ==> NoLineTerminator(r.value.fromLabel.value)
    ensures r.Some? && r.value.toLabel.Some? ==> NoLineTerminator(r.value.toLabel.value)
    ensures r.Some? ==> |r.value.fromId| < |line| && !IsWordChar(line[|r.value.fromId|])
  {
    var n := WordEnd(line, 0);
    if n == 0 then None
    else
    PrefixWord(line, n);
    if n < |line| && line[n] == '[' then
      match CloseAt(line, n + 1, true)
      case Some(k) =>
        SliceClean(line, n + 1, k);
        Some(MatchTarget(line, line[..n], Some(line[n + 1..k]), k + 1))
      case None => None
    else if ArrowAt(line, n) then Some(MatchTarget(line, line[..n], None, n))
    else None
  }

  /**
   * The groups `MatchEdge` reads: the source id is the whole run of word characters at the start,
   * and its label is present exactly when a `[` follows and the lazy group finds a `]` with an
   * arrow after it, and is then the text up to that `]`.
   */
  lemma MatchEdgeGroups(line: string)
    requires MatchEdge(line).Some?
    ensures var m := MatchEdge(line).value; var n := |m.fromId|;
      n == WordEnd(line, 0) && line[..n] == m.fromId &&
      (m.fromLabel.Some? <==> n < |line| && line[n] == '[' && CloseAt(line, n + 1, true).Some?) &&
      (m.fromLabel.Some? ==>
        (CloseAt(line, n + 1, true) == Some(n + 1 + |m.fromLabel.value|) &&
         line[n + 1..n + 1 + |m.fromLabel.value|] == m.fromLabel.value))
  {
  }

  lemma {:induction false} SpaceEndOf(s: string, i: nat, j: nat)
    requires i <= j <= |s|
    requires forall k :: i <= k < j ==> IsSpace(s[k])
    requires j == |s| || !IsSpace(s[j])
    ensures SpaceEnd(s, i) == j
    decreases j - i
  {
    if i < j {
      SpaceEndOf(s, i + 1, j);
    }
  }

  /** With no `]` and no line terminator before an admissible `]`, the lazy group stops at that `]`. */
  lemma {:induction false} CloseAtOf(s: string, i: nat, k: nat, needArrow: bool)
    requires i <= k < |s| && CanClose(s, k, needArrow)
    requires forall j :: i <= j < k ==> !IsLineTerminator(s[j]) && s[j] != ']'
    ensures CloseAt(s, i, needArrow) == Some(k)
    decreases k - i
  {
    if i < k {
      CloseAtOf(s, i + 1, k, needArrow);
    }
  }

  /** `[text]` for a label group that matched; nothing for one that did not. */
  function Bracketed(group: Option<string>): string {
    match group
    case Some(text) => "[" + text + "]"
    case None => ""
  }

  /** A label the lazy group reads whole: it holds no `]` and no line terminator. */
  predicate LazyLabel(group: Option<string>) {
    group.Some? ==> ']' !in group.value && NoLineTerminator(group.value)
  }

  /** The pieces of a line `f bf sp --> sp2 t bt rest`, each at its position. */
  lemma EdgePieces(line: string, f: string, bf: string, sp: string, sp2: string, t: string, bt: string, rest: string)
    requires line == f + bf + sp + "-->" + sp2 + t + bt + rest
    ensures var j := |f| + |bf|; var a := j + |sp|; var b := a + 3 + |sp2|; var c := b + |t|; var d := c + |bt|;
      d + |rest| == |line| &&
      line[..|f|] == f && line[|f|..j] == bf && line[j..a] == sp &&
      line[a] == '-' && line[a + 1] == '-' && line[a + 2] == '>' &&
      line[a + 3..b] == sp2 && line[b..c] == t && line[c..d] == bt && line[d..] == rest
  {
  }

  /** A piece `[l]` of a line, at positions `c` to `d`. */
  lemma BracketAt(line: string, c: nat, d: nat, l: string)
    requires c <= d <= |line| && line[c..d] == "[" + l + "]"
    ensures d == c + 2 + |l| && line[c] == '[' && line[c + 1 + |l|] == ']' && line[c + 1..c + 1 + |l|] == l
  {
    var u := line[c..d];
    assert u[0] == '[' && u[|u| - 1] == ']' && u[1..|u| - 1] == l;
    forall k | 0 <= k < |l| ensures line[c + 1..d - 1][k] == l[k] {
      assert line[c + 1 + k] == u[1 + k];
    }
  }

  /** The characters of `line` from `i` on, where it holds `x`, have every property all of `x` has. */
  lemma SpacesAt(line: string, i: nat, x: string)
    requires i + |x| <= |line| && line[i..i + |x|] == x && AllSpace(x)
    ensures forall k :: i <= k < i + |x| ==> IsSpace(line[k])
  {
    forall k | i <= k < i + |x| ensures IsSpace(line[k]) {
      assert line[k] == x[k - i];
    }
  }

  lemma WordAt(line: string, i: nat, x: string)
    requires i + |x| <= |line| && line[i..i + |x|] == x && IsWord(x)
    ensures forall k :: i <= k < i + |x| ==> IsWordChar(line[k])
  {
    forall k | i <= k < i + |x| ensures IsWordChar(line[k]) {
      assert line[k] == x[k - i];
    }
  }

  /** A lazy group opened at `c` in front of `l]`, with `l` free of `]` and line terminators, reads exactly `l`. */
  lemma LabelAt(line: string, c: nat, d: nat, l: string, needArrow: bool)
    requires d == c + 2 + |l| <= |line| && line[c + 1..c + 1 + |l|] == l && line[c + 1 + |l|] == ']'
    requires LazyLabel(Some(l))
    requires needArrow ==> ArrowAt(line, d)
    ensures CloseAt(line, c + 1, needArrow) == Some(c + 1 + |l|)
  {
    forall k | c + 1 <= k < c + 1 + |l| ensures !IsLineTerminator(line[k]) && line[k] != ']' {
      assert line[k] == l[k - c - 1];
    }
    CloseAtOf(line, c + 1, c + 1 + |l|, needArrow);
  }

  /** The tail of the edge pattern from `i`, once the ends of its pieces are known. */
  lemma MatchTargetAt(line: string, i: nat, a: nat, b: nat, c: nat, fromId: string, fromLabel: Option<string>,
                      toLabel: Option<string>)
    requires i <= a && a + 3 <= b < c <= |line|
    requires SpaceEnd(line, i) == a && line[a] == '-' && line[a + 1] == '-' && line[a + 2] == '>'
    requires SpaceEnd(line, a + 3) == b && WordEnd(line, b) == c
    requires toLabel.None? ==> c == |line| || line[c] != '['
    requires toLabel.Some? ==>
      (c < |line| && line[c] == '[' && CloseAt(line, c + 1, false) == Some(c + 1 + |toLabel.value|) &&
       line[c + 1..c + 1 + |toLabel.value|] == toLabel.value)
    ensures ArrowAt(line, i)
    ensures MatchTarget(line, fromId, fromLabel, i) == EdgeMatch(fromId, fromLabel, line[b..c], toLabel)
  {
  }

  /** The head of the edge pattern, when the source id ends at `n` and no label group follows it. */
  lemma MatchEdgeBareAt(line: string, n: nat, fromId: string)
    requires 0 < n <= |line| && WordEnd(line, 0) == n && line[..n] == fromId && ArrowAt(line, n)
    requires n == |line| || line[n] != '['
    ensures MatchEdge(line) == Some(MatchTarget(line, fromId, None, n))
  {
  }

  /** The head of the edge pattern, when the source id ends at `n` and its label `l` follows in brackets. */
  lemma MatchEdgeLabelledAt(line: string, n: nat, j: nat, fromId: string, l: string)
    requires j == n + 2 + |l| <= |line| && 0 < n && WordEnd(line, 0) == n && line[..n] == fromId
    requires line[n] == '[' && CloseAt(line, n + 1, true) == Some(n + 1 + |l|) && line[n + 1..n + 1 + |l|] == l
    requires ArrowAt(line, j)
    ensures MatchEdge(line) == Some(MatchTarget(line, fromId, Some(l), j))
  {
  }

  /** The label group after the target id `t`, which ends at `c`: `bt` is `[label]` or empty. */
  lemma TargetLabelAt(line: string, c: nat, tl: Option<string>, rest: string)
    requires c + |Bracketed(tl)| <= |line| && line[c..c + |Bracketed(tl)|] == Bracketed(tl)
    requires line[c + |Bracketed(tl)|..] == rest && LazyLabel(tl)
    requires tl.None? ==> rest == [] || (!IsWordChar(rest[0]) && rest[0] != '[')
    ensures c == |line| || !IsWordChar(line[c])
    ensures tl.None? ==> c == |line| || line[c] != '['
    ensures tl.Some? ==>
      (c < |line| && line[c] == '[' && CloseAt(line, c + 1, false) == Some(c + 1 + |tl.value|) &&
       line[c + 1..c + 1 + |tl.value|] == tl.value)
  {
    match tl
    case Some(l) =>
      BracketAt(line, c, c + 2 + |l|, l);
      LabelAt(line, c, c + 2 + |l|, l, false);
    case None =>
      assert c < |line| ==> line[c] == line[c..][0];
  }

  /** The tail of the edge pattern from `j`, over pieces known by position only. */
  lemma MatchTargetOfPieces(line: string, j: nat, a: nat, b: nat, c: nat, fromId: string, fl: Option<string>,
                            tl: Option<string>)
    requires j <= a && a + 3 <= b < c <= |line|
    requires forall k :: j <= k < a ==> IsSpace(line[k])
    requires line[a] == '-' && line[a + 1] == '-' && line[a + 2] == '>'
    requires forall k :: a + 3 <= k < b ==> IsSpace(line[k])
    requires forall k :: b <= k < c ==> IsWordChar(line[k])
    requires c == |line| || !IsWordChar(line[c])
    requires tl.None? ==> c == |line| || line[c] != '['
    requires tl.Some? ==>
      (c < |line| && line[c] == '[' && CloseAt(line, c + 1, false) == Some(c + 1 + |tl.value|) &&
       line[c + 1..c + 1 + |tl.value|] == tl.value)
    ensures ArrowAt(line, j)
    ensures MatchTarget(line, fromId, fl, j) == EdgeMatch(fromId, fl, line[b..c], tl)
  {
    SpaceEndOf(line, j, a);
    SpaceEndOf(line, a + 3, b);
    WordEndOf(line, b, c);
    MatchTargetAt(line, j, a, b, c, fromId, fl, tl);
  }

  /** The edge pattern, once its source id, its optional label and the tail after them are known. */
  lemma MatchEdgeOfParts(line: string, n: nat, j: nat, f: string, fl: Option<string>, t: string, tl: Option<string>)
    requires 0 < n <= j <= |line| && WordEnd(line, 0) == n && line[..n] == f
    requires ArrowAt(line, j) && MatchTarget(line, f, fl, j) == EdgeMatch(f, fl, t, tl)
    requires fl.None? ==> j == n && (n == |line| || line[n] != '[')
    requires fl.Some? ==>
      (j == n + 2 + |fl.value| && line[n] == '[' && CloseAt(line, n + 1, true) == Some(n + 1 + |fl.value|) &&
       line[n + 1..n + 1 + |fl.value|] == fl.value)
    ensures MatchEdge(line) == Some(EdgeMatch(f, fl, t, tl))
  {
    if fl.Some? {
      MatchEdgeLabelledAt(line, n, j, f, fl.value);
    } else {
      MatchEdgeBareAt(line, n, f);
    }
  }

  /** The label group after the source id, which ends at `n`: `[label]` or nothing, then spaces up to the arrow at `a`. */
  lemma SourceLabelAt(line: string, n: nat, j: nat, a: nat, fl: Option<string>, sp: string)
    requires j == n + |Bracketed(fl)| && a == j + |sp| && a < |line| && line[a] == '-'
    requires line[n..j] == Bracketed(fl) && line[j..a] == sp && LazyLabel(fl) && ArrowAt(line, j)
    ensures n == |line| || !IsWordChar(line[n])
    ensures fl.None? ==> j == n && (n == |line| || line[n] != '[')
    ensures fl.Some? ==>
      (j == n + 2 + |fl.value| && line[n] == '[' && CloseAt(line, n + 1, true) == Some(n + 1 + |fl.value|) &&
       line[n + 1..n + 1 + |fl.value|] == fl.value)
  {
    match fl
    case Some(l) =>
      BracketAt(line, n, j, l);
      LabelAt(line, n, j, l, true);
    case None =>
      assert line[n] == if sp != [] then line[j..a][0] else '-';
  }

  /** The tail of the edge pattern from `j`, over a line cut into the pieces of an edge. */
  lemma MatchTargetOfSlices(line: string, j: nat, a: nat, b: nat, c: nat, d: nat, f: string, fl: Option<string>,
                            sp: string, sp2: string, t: string, tl: Option<string>, rest: string)
    requires a == j + |sp| && b == a + 3 + |sp2| && c == b + |t| && d == c + |Bracketed(tl)| && d + |rest| == |line|
    requires line[j..a] == sp && line[a] == '-' && line[a + 1] == '-' && line[a + 2] == '>'
    requires line[a + 3..b] == sp2 && line[b..c] == t && line[c..d] == Bracketed(tl) && line[d..] == rest
    requires IsWord(t) && AllSpace(sp) && AllSpace(sp2) && LazyLabel(tl)
    requires tl.None? ==> rest == [] || (!IsWordChar(rest[0]) && rest[0] != '[')
    ensures ArrowAt(line, j) && MatchTarget(line, f, fl, j) == EdgeMatch(f, fl, t, tl)
  {
    SpacesAt(line, j, sp);
    SpacesAt(line, a + 3, sp2);
    WordAt(line, b, t);
    TargetLabelAt(line, c, tl, rest);
    MatchTargetOfPieces(line, j, a, b, c, f, fl, tl);
  }

  /** The edge pattern over a line cut into the pieces of an edge. */
  lemma MatchEdgeOfSlices(line: string, j: nat, a: nat, b: nat, c: nat, d: nat, f: string, fl: Option<string>,
                          sp: string, sp2: string, t: string, tl: Option<string>, rest: string)
    requires j == |f| + |Bracketed(fl)| && a == j + |sp| && b == a + 3 + |sp2| && c == b + |t| && d == c + |Bracketed(tl)|
    requires d + |rest| == |line|
    requires line[..|f|] == f && line[|f|..j] == Bracketed(fl) && line[j..a] == sp
    requires line[a] == '-' && line[a + 1] == '-' && line[a + 2] == '>'
    requires line[a + 3..b] == sp2 && line[b..c] == t && line[c..d] == Bracketed(tl) && line[d..] == rest
    requires IsWord(f) && IsWord(t) && AllSpace(sp) && AllSpace(sp2) && LazyLabel(fl) && LazyLabel(tl)
    requires tl.None? ==> rest == [] || (!IsWordChar(rest[0]) && rest[0] != '[')
    ensures MatchEdge(line) == Some(EdgeMatch(f, fl, t, tl))
  {
    var n := |f|;
    WordAt(line, 0, f);
    MatchTargetOfSlices(line, j, a, b, c, d, f, fl, sp, sp2, t, tl, rest);
    SourceLabelAt(line, n, j, a, fl, sp);
    WordEndOf(line, 0, n);
    MatchEdgeOfParts(line, n, j, f, fl, t, tl);
  }

  /**
   * Every line of the shape `f[label] sp --> sp2 t[label] rest`, with word ids and labels the lazy
   * groups read whole, is matched by the edge pattern with exactly those groups.
   */
  lemma MatchEdgeOfShape(line: string, f: string, fl: Option<string>, sp: string, sp2: string, t: string,
                         tl: Option<string>, rest: string)
    requires line == f + Bracketed(fl) + sp + "-->" + sp2 + t + Bracketed(tl) + rest
    requires IsWord(f) && IsWord(t) && AllSpace(sp) && AllSpace(sp2) && LazyLabel(fl) && LazyLabel(tl)
    requires tl.None? ==> rest == [] || (!IsWordChar(rest[0]) && rest[0] != '[')
    ensures MatchEdge(line) == Some(EdgeMatch(f, fl, t, tl))
  {
    var j := |f| + |Bracketed(fl)|;
    var a := j + |sp|;
    var b := a + 3 + |sp2|;
    var c := b + |t|;
    EdgePieces(line, f, Bracketed(fl), sp, sp2, t, Bracketed(tl), rest);
    MatchEdgeOfSlices(line, j, a, b, c, c + |Bracketed(tl)|, f, fl, sp, sp2, t, tl, rest);
  }

  /** The groups of a match of the node pattern. */
  datatype NodeMatch = NodeMatch(id: string, text: string)

  /** `/^([A-Za-z0-9_]+)\[(.+)\]$/`: an id, then a non-empty label running to the final `]`. */
  function MatchNode(line: string): Option<NodeMatch>
  {
    var n := WordEnd(line, 0);
    if 0 < n && n + 3 <= |line| && line[n] == '[' && line[|line| - 1] == ']'
       && forall j :: n + 1 <= j < |line| - 1 ==> !IsLineTerminator(line[j])
    then Some(NodeMatch(line[..n], line[n + 1..|line| - 1]))
    else None
  }

  lemma MatchNodeOfShape(line: string, id: string, text: string)
    requires line == id + "[" + text + "]" && IsWord(id) && |text| >= 1 && NoLineTerminator(text)
    ensures MatchNode(line) == Some(NodeMatch(id, text))
  {
    assert forall k :: 0 <= k < |id| ==> line[k] == id[k];
    assert line[|id|] == '[';
    WordEndOf(line, 0, |id|);
    assert line[..|id|] == id;
    assert line[|id| + 1..|line| - 1] == text;
    assert forall j :: |id| + 1 <= j < |line| - 1 ==> line[j] == text[j - |id| - 1];
  }

  lemma ShapeOfMatchNode(line: string, id: string, text: string)
    requires MatchNode(line) == Some(NodeMatch(id, text))
    ensures line == id + "[" + text + "]" && IsWord(id) && |text| >= 1 && NoLineTerminator(text)
  {
    var n := WordEnd(line, 0);
    assert id == line[..n] && text == line[n + 1..|line| - 1];
    assert line == line[..n] + "[" + line[n + 1..|line| - 1] + "]";
    PrefixWord(line, n);
    SliceClean(line, n + 1, |line| - 1);
  }

  /** The node pattern matches exactly the lines `id[text]` with a word id and a non-empty one-line text. */
  lemma MatchNodeIff(line: string, id: string, text: string)
    ensures MatchNode(line) == Some(NodeMatch(id, text)) <==>
      (line == id + "[" + text + "]" && IsWord(id) && |text| >= 1 && NoLineTerminator(text))
  {
    if line == id + "[" + text + "]" && IsWord(id) && |text| >= 1 && NoLineTerminator(text) {
      MatchNodeOfShape(line, id, text);
    }
    if MatchNode(line) == Some(NodeMatch(id, text)) {
      ShapeOfMatchNode(line, id, text);
    }
  }

  // ---------------------------------------------------------------- numeric suffix

  /** Length of the longest suffix made of decimal digits. */
  function TrailingDigits(s: string): (n: nat)
    ensures n <= |s|
    ensures forall i :: |s| - n <= i < |s| ==> IsDigit(s[i])
    ensures n == |s| || !IsDigit(s[|s| - n - 1])
  {
    if |s| > 0 && IsDigit(s[|s| - 1]) then 1 + TrailingDigits(s[..|s| - 1]) else 0
  }

  /**
   * `id.match(/_(\d+)$/)` read with `parseInt(…, 10)`: the number after the last underscore
   * when the id ends in `_` and one or more digits.
   */
  function NumericSuffix(id: string): Option<nat>
  {
    var n := TrailingDigits(id);
    if 0 < n < |id| && id[|id| - n - 1] == '_' then
      assert AllDigits(id[|id| - n..]);
      Some(DigitsValue(id[|id| - n..]))
    else None
  }

  lemma TrailingDigitsOf(prefix: string, digits: string)
    requires AllDigits(digits)
    requires prefix == [] || !IsDigit(prefix[|prefix| - 1])
    ensures TrailingDigits(prefix + digits) == |digits|
  {
    var s := prefix + digits;
    assert forall i :: |prefix| <= i < |s| ==> s[i] == digits[i - |prefix|];
    assert |prefix| == 0 || s[|prefix| - 1] == prefix[|prefix| - 1];
  }

  /** A numbered id `<prefix>_<k>` has numeric suffix `k`. */
  lemma NumericSuffixOfNumbered(prefix: string, k: nat)
    ensures NumericSuffix(prefix + "_" + DecimalString(k)) == Some(k)
  {
    var d := DecimalString(k);
    var s := prefix + "_" + d;
    TrailingDigitsOf(prefix + "_", d);
    assert s[|s| - |d|..] == d;
    DigitsValueOfDecimal(k);
  }
}
