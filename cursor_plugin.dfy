/**
 * The streaming-cursor plugin of the Markdown renderer. The stream producer
 * marks the place of the live typing cursor with U+200B ZERO WIDTH SPACE; the
 * plugin visits every text node, cuts its value at each marker and replaces the
 * node, in its parent's children, by the text pieces and one `blinkingCursor`
 * node per marker.
 */
module CursorPlugin {

  /** U+200B ZERO WIDTH SPACE, the marker the plugin searches for. */
  const Sentinel: char := '\U{200B}'

  /** The children of a Markdown tree node that matter here. */
  datatype MdNode =
    | Text(value: string)
    | BlinkingCursor
    | Element(tagName: string)  // any other node (emphasis, inline code, ...)

  // ---------------------------------------------------------------------------
  // The reference segmentation, defined one character at a time
  // ---------------------------------------------------------------------------

  /** A text node for a non-empty piece, no node for an empty one. */
  function TextNode(s: string): seq<MdNode> {
    if s == [] then [] else [Text(s)]
  }

  /** Puts `c` in front of the first node, merging it into a leading text node. */
  function PrependChar(c: char, ns: seq<MdNode>): seq<MdNode> {
    if ns != [] && ns[0].Text? then [Text([c] + ns[0].value)] + ns[1..]
    else [Text([c])] + ns
  }

  /** The node sequence a text value stands for: every marker a cursor, every maximal run of other characters one text node. */
  function Segments(s: string): seq<MdNode> {
    if s == [] then []
    else if s[0] == Sentinel then [BlinkingCursor] + Segments(s[1..])
    else PrependChar(s[0], Segments(s[1..]))
  }

  /** The inverse reading: the text a node sequence shows, with every cursor written back as a marker. */
  function Unsegment(ns: seq<MdNode>): string {
    if ns == [] then []
    else
      (match ns[0]
       case Text(v) => v
       case BlinkingCursor => [Sentinel]
       case Element(_) => []) + Unsegment(ns[1..])
  }

  /** The concatenated values of the text nodes. */
  function TextContent(ns: seq<MdNode>): string {
    if ns == [] then [] else (if ns[0].Text? then ns[0].value else []) + TextContent(ns[1..])
  }

  /** The number of cursor nodes. */
  function CursorCount(ns: seq<MdNode>): nat {
    if ns == [] then 0 else (if ns[0].BlinkingCursor? then 1 else 0) + CursorCount(ns[1..])
  }

  /** `s` with every marker removed. */
  function Stripped(s: string): string {
    if s == [] then [] else (if s[0] == Sentinel then [] else [s[0]]) + Stripped(s[1..])
  }

  /** The number of markers in `s`. */
  function SentinelCount(s: string): nat {
    if s == [] then 0 else (if s[0] == Sentinel then 1 else 0) + SentinelCount(s[1..])
  }

  /**
   * The shape the plugin emits: only text and cursor nodes, every text node
   * non-empty and free of markers, and never two text nodes side by side.
   */
  predicate Canonical(ns: seq<MdNode>) {
    ns == [] ||
    (ns[0].BlinkingCursor? && Canonical(ns[1..])) ||
    (ns[0].Text? && ns[0].value != [] && Sentinel !in ns[0].value &&
     (|ns| == 1 || ns[1].BlinkingCursor?) && Canonical(ns[1..]))
  }

  // ---------------------------------------------------------------------------
  // Properties of the segmentation
  // ---------------------------------------------------------------------------

  /** A value without a marker is a single text node, or nothing if it is empty. */
  lemma {:induction false} SegmentsPlain(t: string)
    requires Sentinel !in t
    ensures Segments(t) == TextNode(t)
  {
    if t != [] {
      assert t[0] != Sentinel by { assert t[0] in t; }
      assert Sentinel !in t[1..] by { assert forall k :: 0 <= k < |t| - 1 ==> t[1..][k] == t[k + 1]; }
      SegmentsPlain(t[1..]);
      assert [t[0]] + t[1..] == t;
      if t[1..] == [] {
        assert t == [t[0]];
        assert Segments(t) == PrependChar(t[0], []);
      } else {
        assert Segments(t) == [Text([t[0]] + t[1..])] + [Text(t[1..])][1..];
      }
    }
  }

  /** Putting a character in front of nodes followed by a non-text node only touches the front part. */
  lemma {:induction false} PrependCharAppend(c: char, ns: seq<MdNode>, t: seq<MdNode>)
    requires t != [] && !t[0].Text?
    ensures PrependChar(c, ns + t) == PrependChar(c, ns) + t
  {
    if ns == [] {
      assert ns + t == t;
    } else {
      assert (ns + t)[0] == ns[0];
      if ns[0].Text? {
        assert (ns + t)[1..] == ns[1..] + t;
        Associative([Text([c] + ns[0].value)], ns[1..], t);
      } else {
        Associative([Text([c])], ns, t);
      }
    }
  }

  /** A cut at any marker: the nodes of the two sides with one cursor between them. */
  lemma {:induction false} SegmentsAround(a: string, b: string)
    ensures Segments(a + [Sentinel] + b) == Segments(a) + [BlinkingCursor] + Segments(b)
  {
    var s := a + [Sentinel] + b;
    var tail := [BlinkingCursor] + Segments(b);
    if a == [] {
      assert s[0] == Sentinel && s[1..] == b;
      assert Segments(s) == tail;
      assert Segments(a) + [BlinkingCursor] == [BlinkingCursor];
    } else {
      var r := a[1..] + [Sentinel] + b;
      assert s[0] == a[0] && s[1..] == r;
      SegmentsAround(a[1..], b);
      var sa := Segments(a[1..]);
      Associative(sa, [BlinkingCursor], Segments(b));
      if a[0] == Sentinel {
        assert Segments(s) == [BlinkingCursor] + Segments(r);
        assert Segments(a) == [BlinkingCursor] + sa;
        Associative([BlinkingCursor], sa, tail);
      } else {
        assert Segments(s) == PrependChar(a[0], Segments(r));
        assert Segments(a) == PrependChar(a[0], sa);
        PrependCharAppend(a[0], sa, tail);
      }
      Associative(Segments(a), [BlinkingCursor], Segments(b));
    }
  }

  /** Two adjacent markers give two consecutive cursors with no text node between them. */
  lemma {:induction false} AdjacentSentinels(a: string, b: string)
    ensures Segments(a + [Sentinel, Sentinel] + b)
         == Segments(a) + [BlinkingCursor, BlinkingCursor] + Segments(b)
  {
    assert a + [Sentinel, Sentinel] + b == a + [Sentinel] + ([Sentinel] + b);
    SegmentsAround(a, [Sentinel] + b);
    EdgeSentinels(b);
    var l, r := Segments(a), Segments(b);
    assert l + [BlinkingCursor] + ([BlinkingCursor] + r) == l + [BlinkingCursor, BlinkingCursor] + r;
  }

  /** A leading or a trailing marker yields no empty text node. */
  lemma {:induction false} EdgeSentinels(t: string)
    ensures Segments([Sentinel] + t) == [BlinkingCursor] + Segments(t)
    ensures Segments(t + [Sentinel]) == Segments(t) + [BlinkingCursor]
  {
    SegmentsAround([], t);
    assert [] + [Sentinel] + t == [Sentinel] + t;
    SegmentsAround(t, []);
    assert t + [Sentinel] + [] == t + [Sentinel];
  }

  lemma {:induction false} UnsegmentPrepend(c: char, ns: seq<MdNode>)
    ensures Unsegment(PrependChar(c, ns)) == [c] + Unsegment(ns)
  {
    if ns != [] && ns[0].Text? {
      assert PrependChar(c, ns)[1..] == ns[1..];
    } else {
      assert PrependChar(c, ns)[1..] == ns;
    }
  }

  /** Reading the nodes back, cursors as markers, gives the value exactly. */
  lemma {:induction false} UnsegmentSegments(s: string)
    ensures Unsegment(Segments(s)) == s
  {
    if s != [] {
      UnsegmentSegments(s[1..]);
      if s[0] == Sentinel {
        assert ([BlinkingCursor] + Segments(s[1..]))[1..] == Segments(s[1..]);
      } else {
        UnsegmentPrepend(s[0], Segments(s[1..]));
      }
      assert [s[0]] + s[1..] == s;
    }
  }

  lemma {:induction false} CanonicalPrepend(c: char, ns: seq<MdNode>)
    requires c != Sentinel && Canonical(ns)
    ensures Canonical(PrependChar(c, ns))
  {
    if ns != [] && ns[0].Text? {
      var p := PrependChar(c, ns);
      assert p[1..] == ns[1..];
      assert Sentinel !in [c] + ns[0].value;
    } else {
      assert PrependChar(c, ns)[1..] == ns;
    }
  }

  /** The emitted nodes never hold an empty text node, a marker in a text node, or two adjacent text nodes. */
  lemma {:induction false} SegmentsCanonical(s: string)
    ensures Canonical(Segments(s))
  {
    if s != [] {
      SegmentsCanonical(s[1..]);
      if s[0] == Sentinel {
        assert ([BlinkingCursor] + Segments(s[1..]))[1..] == Segments(s[1..]);
      } else {
        CanonicalPrepend(s[0], Segments(s[1..]));
      }
    }
  }

  /** Canonical node sequences are exactly the segmentations: re-segmenting what they show gives them back. */
  lemma {:induction false} SegmentsUnsegment(ns: seq<MdNode>)
    requires Canonical(ns)
    ensures Segments(Unsegment(ns)) == ns
  {
    if ns == [] {
    } else if ns[0].BlinkingCursor? {
      SegmentsUnsegment(ns[1..]);
      var rest := Unsegment(ns[1..]);
      assert Unsegment(ns) == [Sentinel] + rest;
      EdgeSentinels(rest);
      assert ns == [BlinkingCursor] + ns[1..];
    } else {
      var t := ns[0].value;
      assert t != [] && Sentinel !in t && Canonical(ns[1..]);
      SegmentsPlain(t);
      var rest1 := Unsegment(ns[1..]);
      assert Unsegment(ns) == t + rest1;
      if |ns| == 1 {
        assert ns[1..] == [] && rest1 == [];
        assert t + rest1 == t;
        assert ns == [Text(t)];
      } else {
        var tl := ns[1..];
        assert tl[0] == ns[1] && tl[0].BlinkingCursor?;
        assert tl[1..] == ns[2..];
        assert Canonical(ns[2..]);
        SegmentsUnsegment(ns[2..]);
        var rest := Unsegment(ns[2..]);
        assert rest1 == [Sentinel] + rest;
        Associative(t, [Sentinel], rest);
        SegmentsAround(t, rest);
        assert ns == [Text(t)] + [BlinkingCursor] + ns[2..];
      }
    }
  }

  /** Index form of Canonical: what any single emitted node, and any two neighbours, look like. */
  lemma {:induction false} CanonicalAt(ns: seq<MdNode>, i: nat)
    requires Canonical(ns) && i < |ns|
    ensures ns[i].Text? || ns[i].BlinkingCursor?
    ensures ns[i].Text? ==> ns[i].value != [] && Sentinel !in ns[i].value
    ensures i + 1 < |ns| && ns[i].Text? ==> ns[i + 1].BlinkingCursor?
  {
    if i > 0 {
      CanonicalAt(ns[1..], i - 1);
    }
  }

  lemma {:induction false} TextContentPrepend(c: char, ns: seq<MdNode>)
    ensures TextContent(PrependChar(c, ns)) == [c] + TextContent(ns)
  {
    if ns != [] && ns[0].Text? {
      assert PrependChar(c, ns)[1..] == ns[1..];
    } else {
      assert PrependChar(c, ns)[1..] == ns;
    }
  }

  /** The text nodes, concatenated, are the value with every marker removed. */
  lemma {:induction false} SegmentsText(s: string)
    ensures TextContent(Segments(s)) == Stripped(s)
  {
    if s != [] {
      SegmentsText(s[1..]);
      if s[0] == Sentinel {
        assert ([BlinkingCursor] + Segments(s[1..]))[1..] == Segments(s[1..]);
      } else {
        TextContentPrepend(s[0], Segments(s[1..]));
      }
    }
  }

  lemma {:induction false} CursorCountPrepend(c: char, ns: seq<MdNode>)
    ensures CursorCount(PrependChar(c, ns)) == CursorCount(ns)
  {
    if ns != [] && ns[0].Text? {
      assert PrependChar(c, ns)[1..] == ns[1..];
    } else {
      assert PrependChar(c, ns)[1..] == ns;
    }
  }

  /** One cursor node per marker. */
  lemma {:induction false} SegmentsCursors(s: string)
    ensures CursorCount(Segments(s)) == SentinelCount(s)
  {
    if s != [] {
      SegmentsCursors(s[1..]);
      if s[0] == Sentinel {
        assert ([BlinkingCursor] + Segments(s[1..]))[1..] == Segments(s[1..]);
      } else {
        CursorCountPrepend(s[0], Segments(s[1..]));
      }
    }
  }

  // ---------------------------------------------------------------------------
  // The plugin as the source runs it
  // ---------------------------------------------------------------------------

  /** The start indices of the markers at or after `from`, in order: what `matchAll` yields. */
  function SentinelIndices(s: string, from: nat): (r: seq<nat>)
    requires from <= |s|
    decreases |s| - from
    ensures forall k :: 0 <= k < |r| ==> from <= r[k] < |s| && s[r[k]] == Sentinel
  {
    if from == |s| then []
    else if s[from] == Sentinel then [from] + SentinelIndices(s, from + 1)
    else SentinelIndices(s, from + 1)
  }

  /** Every marker at or after `from` is matched. */
  lemma {:induction false} SentinelIndicesComplete(s: string, from: nat, j: nat)
    requires from <= j < |s| && s[j] == Sentinel
    decreases |s| - from
    ensures j in SentinelIndices(s, from)
  {
    if from < j {
      SentinelIndicesComplete(s, from + 1, j);
    }
  }

  /** The first match after `from` is the first marker there, and the later matches are those after it. */
  lemma {:induction false} SentinelIndicesHead(s: string, from: nat)
    requires from <= |s| && SentinelIndices(s, from) != []
    decreases |s| - from
    ensures var m := SentinelIndices(s, from)[0];
      from <= m < |s| && s[m] == Sentinel && Sentinel !in s[from..m] &&
      SentinelIndices(s, from)[1..] == SentinelIndices(s, m + 1)
  {
    if s[from] != Sentinel {
      assert SentinelIndices(s, from) == SentinelIndices(s, from + 1);
      SentinelIndicesHead(s, from + 1);
      var m := SentinelIndices(s, from + 1)[0];
      assert s[from..m] == [s[from]] + s[from + 1..m];
    } else {
      assert s[from..from] == [];
    }
  }

  /** The body of the `visit` callback up to the splice: the matches of the marker and, if there are any, the nodes built from them. */
  method SplitOnCursor(value: string) returns (changed: bool, newNodes: seq<MdNode>)
    ensures changed <==> Sentinel in value
    ensures changed ==> newNodes == Segments(value)
  {
    var matches := SentinelIndices(value, 0);
    changed := |matches| > 0;
    newNodes := [];
    MatchesIffSentinel(value);
    if !changed {
      return;
    }
    var lastIndex: nat := 0;
    var i := 0;
    assert value[0..] == value;
    while i < |matches|
      invariant 0 <= i <= |matches| && lastIndex <= |value|
      invariant matches[i..] == SentinelIndices(value, lastIndex)
      invariant newNodes + Segments(value[lastIndex..]) == Segments(value)
    {
      LoopStep(value, matches, i, lastIndex, newNodes);
      newNodes, lastIndex := VisitMatch(value, matches[i], lastIndex, newNodes);
      i := i + 1;
    }
    SegmentsAfterLastMatch(value, lastIndex);
    if lastIndex < |value| {
      newNodes := newNodes + [Text(value[lastIndex..])];
    } else {
      assert newNodes + TextNode(value[lastIndex..]) == newNodes + [];
    }
  }

  /** There is a match exactly when the value holds a marker: the guard on `matches.length`. */
  lemma {:induction false} MatchesIffSentinel(value: string)
    ensures |SentinelIndices(value, 0)| > 0 <==> Sentinel in value
  {
    var matches := SentinelIndices(value, 0);
    if Sentinel in value {
      var j :| 0 <= j < |value| && value[j] == Sentinel;
      SentinelIndicesComplete(value, 0, j);
    }
    if |matches| > 0 {
      assert value[matches[0]] == Sentinel;
    }
  }

  /**
   * The `forEach` callback for the match at `startIndex`: the
   * piece since the previous match if it is non-empty, then one cursor; the
   * next piece starts after the marker.
   */
  method VisitMatch(value: string, startIndex: nat, lastIndex: nat, nodes: seq<MdNode>)
    returns (newNodes: seq<MdNode>, endIndex: nat)
    requires lastIndex <= startIndex < |value|
    ensures newNodes == nodes + TextNode(value[lastIndex..startIndex]) + [BlinkingCursor]
    ensures endIndex == startIndex + 1 && endIndex <= |value|
  {
    newNodes := nodes;
    endIndex := startIndex + 1;  // the match is the one marker
    if startIndex > lastIndex {
      newNodes := newNodes + [Text(value[lastIndex..startIndex])];
    }
    newNodes := newNodes + [BlinkingCursor];
  }

  /** What one round of the loop keeps: the matches still to visit, and the nodes built so far followed by those of the rest. */
  lemma {:induction false} LoopStep(value: string, matches: seq<nat>, i: nat, lastIndex: nat, newNodes: seq<MdNode>)
    requires i < |matches| && lastIndex <= |value|
    requires matches[i..] == SentinelIndices(value, lastIndex)
    requires newNodes + Segments(value[lastIndex..]) == Segments(value)
    ensures var m := matches[i];
      lastIndex <= m < |value| &&
      matches[i + 1..] == SentinelIndices(value, m + 1) &&
      newNodes + TextNode(value[lastIndex..m]) + [BlinkingCursor] + Segments(value[m + 1..]) == Segments(value)
  {
    var m := matches[i];
    assert matches[i..][0] == m;
    assert matches[i + 1..] == matches[i..][1..];
    SegmentsAtMatch(value, lastIndex);
    var text, rest := TextNode(value[lastIndex..m]), Segments(value[m + 1..]);
    assert Segments(value[lastIndex..]) == text + [BlinkingCursor] + rest;
    Associative(text, [BlinkingCursor], rest);
    Associative(newNodes, text, [BlinkingCursor] + rest);
    Associative(newNodes + text, [BlinkingCursor], rest);
  }

  lemma Associative<T>(a: seq<T>, b: seq<T>, c: seq<T>)
    ensures a + b + c == a + (b + c)
  {
  }

  /** One round of the loop: the rest of the value, from `from`, starts with the piece before the next match and its cursor. */
  lemma {:induction false} SegmentsAtMatch(value: string, from: nat)
    requires from <= |value| && SentinelIndices(value, from) != []
    ensures var m := SentinelIndices(value, from)[0];
      from <= m < |value| &&
      SentinelIndices(value, from)[1..] == SentinelIndices(value, m + 1) &&
      Segments(value[from..]) == TextNode(value[from..m]) + [BlinkingCursor] + Segments(value[m + 1..])
  {
    SentinelIndicesHead(value, from);
    SegmentsSuffix(value, from, SentinelIndices(value, from)[0]);
  }

  lemma {:induction false} SegmentsSuffix(value: string, from: nat, m: nat)
    requires from <= m < |value| && value[m] == Sentinel && Sentinel !in value[from..m]
    ensures Segments(value[from..]) == TextNode(value[from..m]) + [BlinkingCursor] + Segments(value[m + 1..])
  {
    var piece, rest := value[from..m], value[m + 1..];
    assert value[from..] == piece + [Sentinel] + rest by {
      assert value[from..] == value[from..m] + value[m..];
      assert value[m..] == [value[m]] + value[m + 1..];
    }
    SegmentsCut(value[from..], piece, rest);
  }

  lemma {:induction false} SegmentsCut(x: string, piece: string, rest: string)
    requires x == piece + [Sentinel] + rest && Sentinel !in piece
    ensures Segments(x) == TextNode(piece) + [BlinkingCursor] + Segments(rest)
  {
    SegmentsAround(piece, rest);
    SegmentsPlain(piece);
  }

  /** After the last match the rest of the value holds no marker and is at most one text node. */
  lemma {:induction false} SegmentsAfterLastMatch(value: string, from: nat)
    requires from <= |value| && SentinelIndices(value, from) == []
    ensures Segments(value[from..]) == TextNode(value[from..])
  {
    assert Sentinel !in value[from..] by {
      forall k | 0 <= k < |value| - from ensures value[from..][k] != Sentinel {
        assert value[from + k] == value[from..][k];
        if value[from + k] == Sentinel {
          SentinelIndicesComplete(value, from, from + k);
        }
      }
    }
    SegmentsPlain(value[from..]);
  }

  /** The children of `parent` after the plugin has visited the text node at `index`. */
  function ApplyCursor(children: seq<MdNode>, index: nat): seq<MdNode>
    requires index < |children| && children[index].Text?
  {
    var v := children[index].value;
    if Sentinel in v then children[..index] + Segments(v) + children[index + 1..] else children
  }

  /** A visit replaces the visited node only; every sibling keeps its place relative to it. */
  lemma {:induction false} ApplyCursorSiblings(children: seq<MdNode>, index: nat)
    requires index < |children| && children[index].Text?
    ensures var v := children[index].value; var r := ApplyCursor(children, index);
      (Sentinel !in v ==> r == children) &&
      (Sentinel in v ==>
        |r| == |children| - 1 + |Segments(v)| &&
        r[..index] == children[..index] &&
        r[index..index + |Segments(v)|] == Segments(v) &&
        r[index + |Segments(v)|..] == children[index + 1..])
  {
  }

  /** Whatever the visit does, the text the children show, cursors read as markers, is what it was. */
  lemma {:induction false} ApplyCursorPreservesText(children: seq<MdNode>, index: nat)
    requires index < |children| && children[index].Text?
    ensures Unsegment(ApplyCursor(children, index)) == Unsegment(children)
  {
    var v := children[index].value;
    if Sentinel in v {
      var before, after := children[..index], children[index + 1..];
      assert children == before + ([Text(v)] + after) by {
        assert children == children[..index] + children[index..];
        assert children[index..] == [children[index]] + children[index + 1..];
      }
      UnsegmentAppend(before, [Text(v)] + after);
      assert Unsegment([Text(v)] + after) == v + Unsegment(after) by {
        assert ([Text(v)] + after)[1..] == after;
      }
      Associative(before, Segments(v), after);
      assert ApplyCursor(children, index) == before + (Segments(v) + after);
      UnsegmentAppend(before, Segments(v) + after);
      UnsegmentAppend(Segments(v), after);
      UnsegmentSegments(v);
    }
  }

  /** The traversal reaching a text node the splice inserted finds no marker in it and changes nothing. */
  lemma {:induction false} RevisitUnchanged(children: seq<MdNode>, index: nat, j: nat)
    requires index < |children| && children[index].Text? && Sentinel in children[index].value
    requires index <= j < index + |Segments(children[index].value)|
    requires ApplyCursor(children, index)[j].Text?
    ensures ApplyCursor(ApplyCursor(children, index), j) == ApplyCursor(children, index)
  {
    var v := children[index].value;
    var segs, before, after := Segments(v), children[..index], children[index + 1..];
    var r := ApplyCursor(children, index);
    Associative(before, segs, after);
    assert r == before + (segs + after);
    assert r[j] == (segs + after)[j - index] == segs[j - index];
    SegmentsCanonical(v);
    CanonicalAt(Segments(v), j - index);
  }

  lemma {:induction false} UnsegmentAppend(a: seq<MdNode>, b: seq<MdNode>)
    ensures Unsegment(a + b) == Unsegment(a) + Unsegment(b)
  {
    if a == [] {
      assert a + b == b;
    } else {
      assert (a + b)[0] == a[0];
      assert (a + b)[1..] == a[1..] + b;
      UnsegmentAppend(a[1..], b);
    }
  }

  /** The worked examples: plain text, a marker inside, at the start, and two adjacent markers. */
  lemma {:induction false} SegmentsExamples()
    ensures Segments("hello") == [Text("hello")]
    ensures Segments("a\U{200B}b") == [Text("a"), BlinkingCursor, Text("b")]
    ensures Segments("\U{200B}b") == [BlinkingCursor, Text("b")]
    ensures Segments("a\U{200B}\U{200B}b") == [Text("a"), BlinkingCursor, BlinkingCursor, Text("b")]
  {
    SegmentsPlain("hello");
    SegmentsPlain("a");
    SegmentsPlain("b");
    SegmentsAround("a", "b");
    assert "a" + [Sentinel] + "b" == "a\U{200B}b";
    EdgeSentinels("b");
    assert [Sentinel] + "b" == "\U{200B}b";
    AdjacentSentinels("a", "b");
    assert "a" + [Sentinel, Sentinel] + "b" == "a\U{200B}\U{200B}b";
  }

  /** A node of the Markdown tree with children: the `parent` the visitor receives. */
  class ParentNode {
    var children: seq<MdNode>

    constructor (children: seq<MdNode>)
      ensures this.children == children
    {
      this.children := children;
    }

    /** The `visit` callback of `cursorPlugin` for the text node at `index`, ending in the splice into `parent.children`. */
    method VisitText(index: nat)
      requires index < |children| && children[index].Text?
      modifies this
      ensures children == ApplyCursor(old(children), index)
    {
      var changed, newNodes := SplitOnCursor(children[index].value);
      if changed {
        children := children[..index] + newNodes + children[index + 1..];
      }
    }
  }
}
