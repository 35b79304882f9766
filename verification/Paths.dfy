// Paths: their parts, and the parser that splits them.
module Paths {
  import opened CStrings

  const MAX_PATH := 1024

  // The parts of a path: everything between slashes, empty parts included.
  function Split(p: Text): (parts: seq<Text>)
    ensures |parts| > 0
  {
    if p == "" then [""]
    else
      var rest, c := p[..|p| - 1], p[|p| - 1];
      var parts := Split(rest);
      if c == '/' then parts + [""] else AddToLast(parts, c)
  }

  function AddToLast(parts: seq<Text>, c: char): seq<Text>
    requires |parts| > 0 && c != '\0'
  {
    parts[|parts| - 1 := parts[|parts| - 1] + [c]]
  }

  // The parts after one more character.
  lemma SplitNext(p: Text, i: nat)
    requires i < |p|
    ensures var parts := Split(p[..i]);
            var last := parts[|parts| - 1];
            && p[i] != '\0'
            && Split(p[..i + 1]) == (if p[i] == '/' then parts + [""] else AddToLast(parts, p[i]))
            && (p[i] == '/' || |Split(p[..i + 1])[|parts| - 1]| == |last| + 1)
            && (p[i] != '/' ==> |Split(p[..i + 1])| == |parts|)
  {
    assert p[..i + 1][..i] == p[..i];
    assert p[i] in p;
  }

  // The parts of a path begin with the parts of its beginning.
  lemma {:induction false} PartGrows(p: Text, i: nat)
    requires i <= |p|
    ensures var k := |Split(p[..i])| - 1; k < |Split(p)| && |Split(p[..i])[k]| <= |Split(p)[k]|
    ensures var parts := Split(p[..i]); forall k :: 0 <= k < |parts| - 1 ==> k < |Split(p)| && Split(p)[k] == parts[k]
    decreases |p| - i
  {
    if i == |p| {
      assert p[..i] == p;
    } else {
      SplitNext(p, i);
      PartGrows(p, i + 1);
    }
  }

  // A path whose parts fit the buffers of the parser.
  predicate Fits(p: Text) { forall k :: 0 <= k < |Split(p)| ==> |Split(p)[k]| < MAX_PATH }

  lemma {:induction false} PartsAreShorter(p: Text)
    ensures forall k :: 0 <= k < |Split(p)| ==> |Split(p)[k]| <= |p|
  {
    if p != "" {
      PartsAreShorter(p[..|p| - 1]);
    }
  }

  // The parts with a slash between any two of them.
  function Join(parts: seq<Text>): Text {
    if parts == [] then ""
    else if |parts| == 1 then parts[0]
    else Join(parts[..|parts| - 1]) + "/" + parts[|parts| - 1]
  }

  lemma JoinAddToLast(parts: seq<Text>, c: char)
    requires |parts| > 0 && c != '\0'
    ensures Join(AddToLast(parts, c)) == Join(parts) + [c]
  {
    var last := |parts| - 1;
    assert AddToLast(parts, c)[..last] == parts[..last];
    if last > 0 {
      assert Join(parts) + [c] == Join(parts[..last]) + "/" + (parts[last] + [c]);
    }
  }

  // Joining what was split gives the path again.
  lemma {:induction false} JoinSplit(p: Text)
    ensures Join(Split(p)) == p
  {
    if p != "" {
      var rest, c := p[..|p| - 1], p[|p| - 1];
      JoinSplit(rest);
      assert c in p;
      if c == '/' {
        assert (Split(rest) + [""])[..|Split(rest)|] == Split(rest);
        assert rest + "/" == p;
      } else {
        JoinAddToLast(Split(rest), c);
        assert rest + [c] == p;
      }
    }
  }

  predicate NoSlash(parts: seq<Text>) { forall i :: 0 <= i < |parts| ==> '/' !in parts[i] }

  lemma {:induction false} SplitHasNoSlash(p: Text)
    ensures NoSlash(Split(p))
  {
    if p != "" {
      SplitHasNoSlash(p[..|p| - 1]);
    }
  }

  // Behind a slash, the parts of what follows come behind the parts of what precedes.
  lemma {:induction false} SplitAtSlash(p: Text, q: Text)
    ensures Split(p + "/" + q) == Split(p) + Split(q)
  {
    if q == "" {
      assert (p + "/" + q)[..|p|] == p && |p + "/" + q| == |p| + 1;
    } else {
      var rest, c := q[..|q| - 1], q[|q| - 1];
      SplitAtSlash(p, rest);
      assert (p + "/" + q)[..|p| + |q|] == p + "/" + rest;
      assert c in q;
      if c == '/' {
        assert Split(p) + Split(rest) + [""] == Split(p) + (Split(rest) + [""]);
      } else {
        assert AddToLast(Split(p) + Split(rest), c) == Split(p) + AddToLast(Split(rest), c);
      }
    }
  }

  lemma {:induction false} SplitOfPart(p: Text)
    requires '/' !in p
    ensures Split(p) == [p]
  {
    if p != "" {
      SplitOfPart(p[..|p| - 1]);
      assert p[..|p| - 1] + [p[|p| - 1]] == p;
    }
  }

  // Splitting what was joined gives the parts again.
  lemma {:induction false} SplitJoin(parts: seq<Text>)
    requires |parts| > 0 && NoSlash(parts)
    ensures Split(Join(parts)) == parts
  {
    var last := |parts| - 1;
    SplitOfPart(parts[last]);
    if last > 0 {
      SplitJoin(parts[..last]);
      SplitAtSlash(Join(parts[..last]), parts[last]);
      assert parts[..last] + [parts[last]] == parts;
    }
  }

  predicate Valid(path: Text) { "0:/" <= path }

  // A path that parses has a part behind its root: there is no path of just a root.
  lemma ValidHasTwoParts(path: Text)
    requires Valid(path)
    ensures |Split(path)| >= 2 && Split(path)[0] == "0:"
  {
    var rest := path[3..];
    assert path == "0:" + "/" + rest;
    SplitAtSlash("0:", rest);
    SplitOfPart("0:");
  }

  class PathPart {
    const part: array<char>
    var next: PathPart?

    constructor ()
      ensures fresh(part) && part.Length == MAX_PATH == 1024 && next == null
      ensures forall i :: 0 <= i < MAX_PATH ==> part[i] == '\0'
    {
      part := new char[MAX_PATH](i => '\0');
      next := null;
    }
  }

  function Follow(nodes: seq<PathPart>, i: nat): PathPart?
    requires i < |nodes|
  {
    if i + 1 < |nodes| then nodes[i + 1] else null
  }

  // The nodes are a list that holds the parts.
  ghost predicate Holds(nodes: seq<PathPart>, parts: seq<Text>)
    reads nodes, set n | n in nodes :: n.part
  {
    && |nodes| == |parts| > 0
    && (forall i, j :: 0 <= i < j < |nodes| ==> nodes[i] != nodes[j] && nodes[i].part != nodes[j].part)
    && (forall i :: 0 <= i < |nodes| ==> nodes[i].next == Follow(nodes, i))
    && forall i :: 0 <= i < |nodes| ==> nodes[i].part.Length == MAX_PATH && Terminated(nodes[i].part[..], parts[i])
  }

  method IsValid(path: seq<char>, ghost text: Text) returns (res: bool)
    requires Terminated(path, text) && OneByteEach(text)
    ensures res <==> Valid(text)
  {
    var len := Strlen(path, text);
    if len == 0 {
      return false;
    }
    var c := Strcmp("0:/\0", path, "0:/", text);
    return c == 0;
  }

  ghost predicate ZeroFrom(part: array<char>, k: nat)
    reads part
  {
    forall i :: k <= i < part.Length ==> part[i] == '\0'
  }

  method FirstNode() returns (first: PathPart)
    ensures fresh(first) && fresh(first.part) && Holds([first], [""]) && ZeroFrom(first.part, 0)
  {
    first := new PathPart();
  }

  // A slash starts a new node behind the last one.
  method AddNode(current: PathPart, ghost nodes: seq<PathPart>, ghost parts: seq<Text>) returns (newPart: PathPart)
    requires Holds(nodes, parts) && current == nodes[|nodes| - 1]
    modifies current
    ensures fresh(newPart) && fresh(newPart.part) && Holds(nodes + [newPart], parts + [""])
    ensures ZeroFrom(newPart.part, 0)
  {
    newPart := new PathPart();
    current.next := newPart;
    ghost var nodes' := nodes + [newPart];
    forall i | 0 <= i < |nodes'|
      ensures nodes'[i].next == Follow(nodes', i)
    {
      if i < |nodes| - 1 {
        assert old(nodes[i].next) == Follow(nodes, i);
      }
    }
  }

  lemma LongerText(memory: seq<char>, t: Text, c: char)
    requires Terminated(memory, t) && |t| + 1 < |memory| && memory[|t| + 1] == '\0' && c != '\0'
    ensures Terminated(memory[|t| := c], t + [c])
  {
  }

  // Any other character goes into the last node.
  method AddChar(current: PathPart, k: nat, c: char, ghost nodes: seq<PathPart>, ghost parts: seq<Text>)
    requires Holds(nodes, parts) && current == nodes[|nodes| - 1]
    requires c != '\0' && k == |parts[|parts| - 1]| < MAX_PATH - 1 && ZeroFrom(current.part, k)
    modifies current.part
    ensures Holds(nodes, AddToLast(parts, c)) && ZeroFrom(current.part, k + 1)
  {
    ghost var last := |nodes| - 1;
    assert Terminated(nodes[last].part[..], parts[last]);
    LongerText(current.part[..], parts[last], c);
    current.part[k] := c;
    hide Terminated;
    forall i | 0 <= i < |nodes|
      ensures Terminated(nodes[i].part[..], AddToLast(parts, c)[i])
    {
      assert i < last ==> nodes[i].part[..] == old(nodes[i].part[..]);
    }
  }

  // Path::parse, for paths whose parts fit their buffers.
  method Parse(path: seq<char>, ghost text: Text) returns (first: PathPart?, ghost nodes: seq<PathPart>)
    requires Terminated(path, text) && OneByteEach(text) && (Valid(text) ==> Fits(text))
    ensures first == null <==> !Valid(text)
    ensures first != null ==>
      && Holds(nodes, Split(text)) && first == nodes[0]
      && forall n :: n in nodes ==> fresh(n) && fresh(n.part)
  {
    nodes := [];
    var valid := IsValid(path, text);
    if !valid {
      return null, nodes;
    }
    first, nodes := ParseParts(path, text);
  }

  lemma PartFits(p: Text, i: nat)
    requires Fits(p) && i <= |p|
    ensures var parts := Split(p[..i]); |parts[|parts| - 1]| < MAX_PATH
  {
    PartGrows(p, i);
  }

  method ParseParts(path: seq<char>, ghost text: Text) returns (first: PathPart, ghost nodes: seq<PathPart>)
    requires Terminated(path, text) && Fits(text)
    ensures Holds(nodes, Split(text)) && first == nodes[0]
    ensures forall n :: n in nodes ==> fresh(n) && fresh(n.part)
  {
    hide Holds, ZeroFrom, AddToLast;
    first := FirstNode();
    var current := first;
    nodes := [first];
    var relativeIdx := 0;
    var len := Strlen(path, text);
    ghost var parts: seq<Text> := [""];
    assert parts == Split(text[..0]);
    hide Split, Fits;
    for idx := 0 to len
      invariant parts == Split(text[..idx]) && relativeIdx == |parts[|parts| - 1]|
      invariant |nodes| > 0 && first == nodes[0] && current == nodes[|nodes| - 1]
      invariant Holds(nodes, parts) && ZeroFrom(current.part, relativeIdx)
      invariant forall n :: n in nodes ==> fresh(n) && fresh(n.part)
    {
      MemoryAt(path, text, idx);
      SplitNext(text, idx);
      PartFits(text, idx + 1);
      if path[idx] == '/' {
        relativeIdx := 0;
        var newPart := AddNode(current, nodes, parts);
        current := newPart;
        nodes, parts := nodes + [newPart], parts + [""];
      } else {
        AddChar(current, relativeIdx, path[idx], nodes, parts);
        relativeIdx := relativeIdx + 1;
        parts := AddToLast(parts, path[idx]);
      }
    }
    assert text[..len] == text;
  }
}
