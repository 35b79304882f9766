// The mount table, and how fopen finds the mount a path belongs to.
module Mounts {
  import opened CStrings
  import opened Paths
  import opened Status
  import opened Wrappers

  const MAX_MOUNTED := 16384
  const MAX_FILEDESCRIPTORS := 1024

  // A name is a prefix of a path in whole parts.
  predicate Leads(name: Text, path: Text) {
    name == "" || name == path || name + "/" <= path
  }

  // The first k parts of a path.
  function Prefix(path: Text, k: nat): Text
    requires k <= |Split(path)|
  {
    Join(Split(path)[..k])
  }

  lemma {:induction false} JoinAt(parts: seq<Text>, k: nat)
    requires 0 < k < |parts|
    ensures Join(parts) == Join(parts[..k]) + "/" + Join(parts[k..])
  {
    var last := |parts| - 1;
    if k < last {
      JoinAt(parts[..last], k);
      assert parts[..last][..k] == parts[..k];
      assert parts[k..][..last - k] == parts[..last][k..];
    }
  }

  // The prefixes the search tries are exactly the names that lead to the path.
  lemma PrefixLeads(path: Text, k: nat)
    requires k <= |Split(path)|
    ensures Leads(Prefix(path, k), path)
    ensures 0 < k < |Split(path)| ==> path == Prefix(path, k) + "/" + Join(Split(path)[k..])
  {
    var parts := Split(path);
    JoinSplit(path);
    if k == |parts| {
      assert parts[..k] == parts;
    } else if k > 0 {
      JoinAt(parts, k);
    }
  }

  lemma LeadsIsPrefix(name: Text, path: Text) returns (k: nat)
    requires Leads(name, path)
    ensures k <= |Split(path)| && Prefix(path, k) == name
  {
    JoinSplit(path);
    JoinSplit(name);
    if name == "" {
      k := 0;
    } else if name == path {
      k := |Split(path)|;
      assert Split(path)[..k] == Split(path);
    } else {
      var rest := path[|name| + 1..];
      assert path == name + "/" + rest;
      assert forall i :: 0 <= i < |rest| ==> rest[i] == path[|name| + 1 + i];
      SplitAtSlash(name, rest);
      k := |Split(name)|;
      assert Split(path)[..k] == Split(name);
    }
  }

  // More parts are more characters.
  lemma {:induction false} PrefixGrows(path: Text, k: nat, j: nat)
    requires Valid(path) && k < j <= |Split(path)|
    ensures |Prefix(path, k)| < |Prefix(path, j)|
  {
    var parts := Split(path);
    ValidHasTwoParts(path);
    if k + 1 < j {
      PrefixGrows(path, k, j - 1);
    }
    assert parts[..j][..j - 1] == parts[..j - 1];
  }

  // Two names of the same length that lead to a path are the same.
  lemma SameLengthSameName(a: Text, b: Text, path: Text)
    requires Leads(a, path) && Leads(b, path) && |a| == |b|
    ensures a == b
  {
    assert a == path[..|a|] && b == path[..|b|];
  }

  datatype Mount = Mount(filename: Text, fs: int, data: int)

  // The mount in slot i has the longest name that leads to the path and, of several with that
  // name, the lowest slot.
  ghost predicate Best(mounted: seq<Option<Mount>>, path: Text, i: nat) {
    && i < |mounted| && mounted[i].Some? && Leads(mounted[i].value.filename, path)
    && forall j :: 0 <= j < |mounted| && mounted[j].Some? && Leads(mounted[j].value.filename, path) ==>
         && |mounted[j].value.filename| <= |mounted[i].value.filename|
         && (mounted[j].value.filename == mounted[i].value.filename ==> i <= j)
  }

  ghost predicate NoneLeads(mounted: seq<Option<Mount>>, path: Text) {
    forall j :: 0 <= j < |mounted| && mounted[j].Some? ==> !Leads(mounted[j].value.filename, path)
  }

  ghost predicate Named(mounted: seq<Option<Mount>>, name: Text, j: nat) {
    j < |mounted| && mounted[j].Some? && mounted[j].value.filename == name
  }

  // No prefix of more than k parts is mounted.
  ghost predicate NoneMounted(mounted: seq<Option<Mount>>, path: Text, k: int) {
    forall j: nat, m: nat :: k < m <= |Split(path)| ==> !Named(mounted, Prefix(path, m), j)
  }

  lemma OneFewer(mounted: seq<Option<Mount>>, path: Text, k: nat)
    requires k <= |Split(path)| && NoneMounted(mounted, path, k)
    requires forall j :: 0 <= j < |mounted| ==> !Named(mounted, Prefix(path, k), j)
    ensures NoneMounted(mounted, path, k - 1)
  {
  }

  // The search goes from all parts of the path down to none. The first name that is mounted
  // is the best; if none is, no name leads to the path.
  lemma FirstIsBest(mounted: seq<Option<Mount>>, path: Text, k: nat, i: nat)
    requires Valid(path) && k <= |Split(path)|
    requires Named(mounted, Prefix(path, k), i) && forall j :: 0 <= j < i ==> !Named(mounted, Prefix(path, k), j)
    requires NoneMounted(mounted, path, k)
    ensures Best(mounted, path, i)
  {
    PrefixLeads(path, k);
    forall j | 0 <= j < |mounted| && mounted[j].Some? && Leads(mounted[j].value.filename, path)
      ensures |mounted[j].value.filename| <= |mounted[i].value.filename|
      ensures mounted[j].value.filename == mounted[i].value.filename ==> i <= j
    {
      var m := LeadsIsPrefix(mounted[j].value.filename, path);
      assert Named(mounted, Prefix(path, m), j);
      if m < k {
        PrefixGrows(path, m, k);
      }
    }
  }

  lemma NothingNamed(mounted: seq<Option<Mount>>, path: Text)
    requires NoneMounted(mounted, path, -1)
    ensures NoneLeads(mounted, path)
  {
    forall j | 0 <= j < |mounted| && mounted[j].Some?
      ensures !Leads(mounted[j].value.filename, path)
    {
      if Leads(mounted[j].value.filename, path) {
        var m := LeadsIsPrefix(mounted[j].value.filename, path);
        assert Named(mounted, Prefix(path, m), j);
      }
    }
  }

  datatype Mode = Read | Write | Append | Invalid

  lemma FirstChar(text: Text, c: char)
    requires c != '\0'
    ensures Upto(text, 1) == Upto([c], 1) <==> text != "" && text[0] == c
  {
  }

  // By the first character alone; invalid is what is left.
  method GetModeByString(str: seq<char>, ghost text: Text) returns (mode: Mode)
    requires Terminated(str, text) && OneByteEach(text)
    ensures mode == Read <==> text != "" && text[0] == 'r'
    ensures mode == Write <==> text != "" && text[0] == 'w'
    ensures mode == Append <==> text != "" && text[0] == 'a'
  {
    FirstChar(text, 'r');
    FirstChar(text, 'w');
    FirstChar(text, 'a');
    var c := Strncmp(str, "r\0", 1, text, "r");
    if c == 0 {
      return Read;
    }
    c := Strncmp(str, "w\0", 1, text, "w");
    if c == 0 {
      return Write;
    }
    c := Strncmp(str, "a\0", 1, text, "a");
    if c == 0 {
      return Append;
    }
    return Invalid;
  }

  // What fopen leaves in a descriptor. The file system is asked to open the remaining parts;
  // of its answer the request is kept.
  datatype FileDescriptor = FileDescriptor(index: nat, fs: int, data: int, rest: seq<Text>, mode: Mode)

  lemma NextIs(nodes: seq<PathPart>, texts: seq<Text>, i: nat)
    requires Holds(nodes, texts) && i < |nodes|
    ensures nodes[i].next == Follow(nodes, i)
  {
  }

  method CountParts(root: PathPart, ghost nodes: seq<PathPart>, ghost texts: seq<Text>) returns (pathSz: nat)
    requires Holds(nodes, texts) && root == nodes[0]
    ensures pathSz == |nodes| > 0
  {
    assert |nodes| > 0;
    hide Holds;
    pathSz := 0;
    var part: PathPart? := root;
    while part != null
      invariant pathSz <= |nodes| && part == if pathSz < |nodes| then nodes[pathSz] else null
      decreases |nodes| - pathSz
    {
      NextIs(nodes, texts, pathSz);
      part := part.next;
      pathSz := pathSz + 1;
    }
  }

  method ListParts(root: PathPart, pathSz: nat, ghost nodes: seq<PathPart>) returns (parts: array<PathPart?>)
    requires 0 < |nodes| == pathSz && root == nodes[0]
    requires forall i :: 0 <= i < |nodes| ==> nodes[i].next == Follow(nodes, i)
    ensures fresh(parts) && parts[..] == nodes
  {
    parts := new PathPart?[pathSz](i => null);
    var part: PathPart? := root;
    for i := 0 to pathSz
      invariant i < |nodes| ==> part == nodes[i]
      invariant parts[..i] == nodes[..i]
    {
      parts[i] := part;
      assert nodes[i].next == Follow(nodes, i);
      part := part.next;
    }
  }

  lemma {:induction false} JoinOfPrefix(texts: seq<Text>, k: nat)
    requires k <= |texts|
    ensures |Join(texts[..k])| <= |Join(texts)|
    ensures k < |texts| && k > 0 ==> Join(texts[..k + 1]) == Join(texts[..k]) + "/" + texts[k]
    ensures k < |texts| && k == 0 ==> Join(texts[..k + 1]) == texts[k]
    decreases |texts| - k
  {
    if k == |texts| {
      assert texts[..k] == texts;
    } else {
      JoinOfPrefix(texts, k + 1);
      assert texts[..k + 1][..k] == texts[..k];
    }
  }

  method Clear(buffer: array<char>)
    modifies buffer
    ensures forall i :: 0 <= i < buffer.Length ==> buffer[i] == '\0'
  {
    for i := 0 to buffer.Length
      invariant forall j :: 0 <= j < i ==> buffer[j] == '\0'
    {
      buffer[i] := '\0';
    }
  }

  // Behind the text so far: one more part, and a slash if another one follows.
  method AppendPart(buffer: array<char>, at: nat, part: array<char>, more: bool, ghost before: Text, ghost text: Text)
    returns (at': nat)
    requires part != buffer && Terminated(part[..], text)
    requires at == |before| && at + |text| + 1 < buffer.Length + (if more then 0 else 1) && buffer[..at] == before
    modifies buffer
    ensures more ==> at' == |before + text + "/"| && buffer[..at'] == before + text + "/"
    ensures !more ==> at' == |before + text| && Terminated(buffer[..], before + text)
  {
    Strcpy(buffer, at, part[..], text);
    var len := Strlen(part[..], text);
    at' := at + len;
    assert buffer[at..][..len] == buffer[at..at'];
    assert buffer[..at'] == before + text;
    if more {
      buffer[at'] := '/';
      at' := at' + 1;
    }
  }

  // The text in the buffer before part j of k is added.
  function Begun(texts: seq<Text>, j: nat, k: nat): Text
    requires j <= k <= |texts|
  {
    if 0 < j < k then Join(texts[..j]) + "/" else Join(texts[..j])
  }

  lemma BegunNext(texts: seq<Text>, j: nat, k: nat)
    requires j < k <= |texts|
    ensures Begun(texts, j + 1, k) == Begun(texts, j, k) + texts[j] + (if j + 1 < k then "/" else "")
    ensures |Begun(texts, j + 1, k)| <= |Join(texts)|
  {
    JoinOfPrefix(texts, j);
    JoinOfPrefix(texts, j + 1);
    if j + 1 < k {
      JoinOfPrefix(texts, j + 2);
    }
  }

  // The first k parts, joined in the buffer.
  method Reconstruct(parts: array<PathPart?>, k: nat, buffer: array<char>, ghost nodes: seq<PathPart>, ghost texts: seq<Text>)
    requires Holds(nodes, texts) && parts[..] == nodes && k <= |nodes|
    requires forall n :: n in nodes ==> n.part != buffer
    requires |Join(texts)| < buffer.Length
    modifies buffer
    ensures Terminated(buffer[..], Join(texts[..k]))
  {
    Clear(buffer);
    var ptr := 0;
    for j := 0 to k
      invariant ptr == |Begun(texts, j, k)| < buffer.Length && buffer[..ptr] == Begun(texts, j, k)
      invariant k == 0 ==> buffer[0] == '\0'
      invariant j == k > 0 ==> Terminated(buffer[..], Begun(texts, j, k))
    {
      assert parts[j] == parts[..][j] == nodes[j];
      assert Terminated(nodes[j].part[..], texts[j]);
      BegunNext(texts, j, k);
      ptr := AppendPart(buffer, ptr, parts[j].part, j < k - 1, Begun(texts, j, k), texts[j]);
    }
  }

  // The slots before i that are taken, and the slot i that is not.
  ghost predicate LowestFree<T>(slots: seq<Option<T>>, i: nat) {
    i < |slots| && slots[i].None? && forall j :: 0 <= j < i ==> slots[j].Some?
  }

  // What a successful fopen leaves in the descriptor table: the answer of the best mount for
  // the parts behind its name.
  ghost predicate Opens(mounted: seq<Option<Mount>>, path: Text, d: FileDescriptor) {
    exists i: nat :: Best(mounted, path, i) && OpenedBy(mounted[i].value, path, d)
  }

  // The table before and after a successful fopen.
  ghost predicate NewlyOpen(before: seq<Option<FileDescriptor>>, after: seq<Option<FileDescriptor>>, fd: nat,
                            mounted: seq<Option<Mount>>, path: Text, mode: Mode) {
    && fd > 0 && LowestFree(before, fd - 1) && |after| == |before|
    && after[fd - 1].Some? && after == before[fd - 1 := after[fd - 1]]
    && var d := after[fd - 1].value; d.index == fd && d.mode == mode && Opens(mounted, path, d)
  }

  ghost predicate OpenedBy(m: Mount, path: Text, d: FileDescriptor) {
    d.fs == m.fs && d.data == m.data && Behind(m.filename, path, d.rest)
  }

  // The parts behind the name, all of them. For a path that is itself mounted the code passes
  // the word behind its array of parts, whatever that is.
  ghost predicate Behind(name: Text, path: Text, rest: seq<Text>) {
    name != path ==>
      && rest != [] && NoSlash(rest)
      && path == if name == "" then Join(rest) else name + "/" + Join(rest)
  }

  lemma BehindIsUnique(name: Text, path: Text, rest: seq<Text>, other: seq<Text>)
    requires name != path && Behind(name, path, rest) && Behind(name, path, other)
    ensures rest == other
  {
    SplitJoin(rest);
    SplitJoin(other);
    if name != "" {
      assert Join(rest) == path[|name| + 1..] == Join(other);
    }
  }

  lemma WholePath(path: Text)
    ensures Prefix(path, |Split(path)|) == path
    ensures forall rest: seq<Text> :: Behind(path, path, rest)
  {
    JoinSplit(path);
    assert Split(path)[..|Split(path)|] == Split(path);
  }

  lemma PartsBehind(path: Text, k: nat)
    requires Valid(path) && k <= |Split(path)|
    ensures Behind(Prefix(path, k), path, Split(path)[k..])
  {
    var parts := Split(path);
    PrefixLeads(path, k);
    JoinSplit(path);
    SplitHasNoSlash(path);
    assert parts[..|parts|] == parts;
    if k < |parts| {
      PrefixGrows(path, k, |parts|);
      if k > 0 {
        PrefixGrows(path, 0, k);
      } else {
        assert parts[0..] == parts;
      }
    }
  }

  class Files {
    const mounted: array<Option<Mount>>
    const descriptors: array<Option<FileDescriptor>>

    constructor ()
      ensures fresh(mounted) && mounted.Length == 16384 && forall i :: 0 <= i < mounted.Length ==> mounted[i] == None
      ensures fresh(descriptors) && descriptors.Length == 1024
      ensures forall i :: 0 <= i < descriptors.Length ==> descriptors[i] == None
    {
      mounted := new Option<Mount>[MAX_MOUNTED](i => None);
      descriptors := new Option<FileDescriptor>[MAX_FILEDESCRIPTORS](i => None);
    }

    // The mount goes into the lowest free slot; without one the kernel panics.
    method AddMount(filename: Text, fs: int, data: int) returns (panics: bool)
      modifies mounted
      ensures panics <==> forall i :: 0 <= i < mounted.Length ==> old(mounted[i]).Some?
      ensures panics ==> mounted[..] == old(mounted[..])
      ensures !panics ==>
        exists i: nat :: LowestFree(old(mounted[..]), i)
          && mounted[..] == old(mounted[..])[i := Some(Mount(filename, fs, data))]
    {
      for i := 0 to mounted.Length
        invariant mounted[..] == old(mounted[..])
        invariant forall j :: 0 <= j < i ==> mounted[j].Some?
      {
        if mounted[i].None? {
          assert LowestFree(old(mounted[..]), i);
          mounted[i] := Some(Mount(filename, fs, data));
          return false;
        }
      }
      return true;
    }

    // The lowest slot that is mounted under the text in the buffer.
    method FindMount(buffer: array<char>, ghost name: Text) returns (idx: int)
      requires Terminated(buffer[..], name) && OneByteEach(name) && NamesAreBytes(mounted[..])
      ensures idx == -1 ==> forall j :: 0 <= j < mounted.Length ==> !Named(mounted[..], name, j)
      ensures idx != -1 ==>
        0 <= idx && Named(mounted[..], name, idx) && forall j :: 0 <= j < idx ==> !Named(mounted[..], name, j)
    {
      for i := 0 to mounted.Length
        invariant forall j :: 0 <= j < i ==> !Named(mounted[..], name, j)
      {
        if mounted[i] != None {
          assert mounted[..][i] == mounted[i];
          var filename := mounted[i].value.filename;
          var same := SameString(buffer[..], filename + "\0", name, filename);
          if same {
            return i;
          }
        }
      }
      return -1;
    }

    // One name: the first k parts of the path.
    method TryPrefix(parts: array<PathPart?>, k: nat, buffer: array<char>, ghost nodes: seq<PathPart>, ghost path: Text)
      returns (idx: int)
      requires Searchable(parts, buffer, nodes, path) && k <= parts.Length && NamesAreBytes(mounted[..])
      requires NoneMounted(mounted[..], path, k)
      modifies buffer
      ensures idx == -1 ==> NoneMounted(mounted[..], path, k - 1)
      ensures idx != -1 ==>
        && 0 <= idx && Best(mounted[..], path, idx) && k <= |Split(path)|
        && mounted[idx].value.filename == Prefix(path, k)
    {
      JoinSplit(path);
      hide NoneMounted, Best;
      PrefixIsBytes(path, k);
      Reconstruct(parts, k, buffer, nodes, Split(path));
      idx := FindMount(buffer, Prefix(path, k));
      if idx != -1 {
        FirstIsBest(mounted[..], path, k, idx);
      } else {
        OneFewer(mounted[..], path, k);
      }
    }

    // From all parts of the path down to none.
    method Search(parts: array<PathPart?>, buffer: array<char>, ghost nodes: seq<PathPart>, ghost path: Text)
      returns (idx: int, k: int)
      requires Searchable(parts, buffer, nodes, path) && NamesAreBytes(mounted[..])
      modifies buffer
      ensures idx == -1 ==> NoneLeads(mounted[..], path)
      ensures idx != -1 ==>
        && 0 <= idx && Best(mounted[..], path, idx) && 0 <= k <= parts.Length == |Split(path)|
        && mounted[idx].value.filename == Prefix(path, k)
    {
      k := parts.Length;
      SearchableParts(parts, buffer, nodes, path);
      assert NoneMounted(mounted[..], path, k);
      hide NoneMounted, Searchable, Best, NoneLeads, Split, Prefix, NamesAreBytes;
      while k >= 0
        invariant -1 <= k <= parts.Length
        invariant NoneMounted(mounted[..], path, k) && NamesAreBytes(mounted[..])
        invariant Searchable(parts, buffer, nodes, path)
      {
        idx := TryPrefix(parts, k, buffer, nodes, path);
        if idx != -1 {
          return;
        }
        k := k - 1;
      }
      NothingNamed(mounted[..], path);
      idx := -1;
    }

    // The mount for a parsed path, and the parts behind its name.
    method Resolve(root: PathPart, ghost nodes: seq<PathPart>, ghost path: Text) returns (idx: int, rest: seq<Text>)
      requires Valid(path) && OneByteEach(path) && |path| < MAX_PATH && NamesAreBytes(mounted[..])
      requires Holds(nodes, Split(path)) && root == nodes[0]
      ensures idx == -1 ==> NoneLeads(mounted[..], path)
      ensures idx != -1 ==>
        0 <= idx && Best(mounted[..], path, idx) && Behind(mounted[idx].value.filename, path, rest)
    {
      hide Best, NoneLeads, Behind, Holds, Valid, Searchable, NamesAreBytes;
      var parts, buffer := Prepare(root, nodes, path);
      var k;
      idx, k := Search(parts, buffer, nodes, path);
      rest := [];
      if idx != -1 {
        SearchableParts(parts, buffer, nodes, path);
        PartsBehind(path, k);
        if k < parts.Length {
          rest := Texts(parts, k, nodes, Split(path));
        } else {
          rest := *;
          WholePath(path);
        }
      }
    }

    // The lowest free descriptor slot, or -ENOMEM.
    method NewDescriptor() returns (res: int, i: nat)
      ensures res == 0 ==> LowestFree(descriptors[..], i)
      ensures res != 0 ==> res == -ENOMEM && None !in descriptors[..]
    {
      for k := 0 to descriptors.Length
        invariant forall j :: 0 <= j < k ==> descriptors[j].Some?
      {
        if descriptors[k].None? {
          return 0, k;
        }
      }
      return -ENOMEM, 0;
    }

    // fopen fails exactly for a path that does not parse, a mode it does not know, or a path
    // no mount leads to. Otherwise the best mount is asked for the rest of the path; the kernel
    // panics if its file system does not answer or no descriptor is free. None is the panic.
    method FOpen(filename: seq<char>, strMode: seq<char>, answers: bool, ghost path: Text, ghost mode: Text)
      returns (result: Option<int>)
      requires Terminated(filename, path) && OneByteEach(path) && (Valid(path) ==> |path| < MAX_PATH)
      requires Terminated(strMode, mode) && OneByteEach(mode)
      requires NamesAreBytes(mounted[..])
      modifies descriptors
      ensures result == Some(-EINVARG) <==>
        !Valid(path) || mode == "" || mode[0] !in "rwa" || NoneLeads(mounted[..], path)
      ensures result != Some(-EINVARG) ==> (result == None <==> !answers || None !in old(descriptors[..]))
      ensures result == None || result == Some(-EINVARG) ==> descriptors[..] == old(descriptors[..])
      ensures result != None && result != Some(-EINVARG) ==>
        && 0 < result.value <= descriptors.Length && descriptors[result.value - 1].Some?
        && (descriptors[result.value - 1].value.mode == Read <==> mode[0] == 'r')
        && (descriptors[result.value - 1].value.mode == Write <==> mode[0] == 'w')
        && (descriptors[result.value - 1].value.mode == Append <==> mode[0] == 'a')
        && NewlyOpen(old(descriptors[..]), descriptors[..], result.value, mounted[..], path,
                     descriptors[result.value - 1].value.mode)
    {
      ghost var nodes;
      var root;
      PartsAreShorter(path);
      root, nodes := Parse(filename, path);
      hide NoneLeads, NewlyOpen, NamesAreBytes, Valid, Holds, Split, Behind, Fits;
      if root == null {
        return Some(-EINVARG);
      }
      HasNext(nodes, path);
      if root.next == null {
        assert false;
      }
      var fmode := GetModeByString(strMode, mode);
      if fmode == Invalid {
        return Some(-EINVARG);
      }
      var idx, rest := Resolve(root, nodes, path);
      if idx == -1 {
        return Some(-EINVARG);
      }
      BestLeads(mounted[..], path, idx);
      if !answers {
        return None;
      }
      var fd := OpenAt(idx, rest, fmode, path);
      return if fd == 0 then None else Some(fd);
    }

    // 0 if no descriptor is free.
    method OpenAt(idx: nat, rest: seq<Text>, fmode: Mode, ghost path: Text) returns (fd: nat)
      requires Best(mounted[..], path, idx)
      requires Behind(mounted[idx].value.filename, path, rest)
      modifies descriptors
      ensures fd == 0 <==> None !in old(descriptors[..])
      ensures fd == 0 ==> descriptors[..] == old(descriptors[..])
      ensures fd > 0 ==>
        && fd <= descriptors.Length && descriptors[fd - 1].Some? && descriptors[fd - 1].value.mode == fmode
        && NewlyOpen(old(descriptors[..]), descriptors[..], fd, mounted[..], path, fmode)
    {
      assert mounted[..][idx] == mounted[idx];
      hide Best, Behind;
      var res, i := NewDescriptor();
      if res != 0 {
        return 0;
      }
      assert descriptors[..][i] == None;
      var m := mounted[idx].value;
      var d := FileDescriptor(i + 1, m.fs, m.data, rest, fmode);
      assert OpenedBy(m, path, d);
      descriptors[i] := Some(d);
      return i + 1;
    }
  }

  lemma BestLeads(mounted: seq<Option<Mount>>, path: Text, i: nat)
    requires Best(mounted, path, i)
    ensures !NoneLeads(mounted, path)
  {
  }

  // The check for a path of just a root never fires.
  lemma HasNext(nodes: seq<PathPart>, path: Text)
    requires Valid(path) && Holds(nodes, Split(path))
    ensures nodes[0].next != null
  {
    ValidHasTwoParts(path);
    NextIs(nodes, Split(path), 0);
  }

  // The text of one node.
  method TextOf(node: PathPart, ghost nodes: seq<PathPart>, ghost texts: seq<Text>, ghost i: nat) returns (text: Text)
    requires Holds(nodes, texts) && i < |nodes| && node == nodes[i]
    ensures text == texts[i]
  {
    assert Terminated(nodes[i].part[..], texts[i]);
    var len := Strlen(node.part[..], texts[i]);
    assert node.part[..][..len] == node.part[..len];
    text := node.part[..len];
  }

  lemma OneMoreText(texts: seq<Text>, k: nat, i: nat)
    requires k <= i < |texts|
    ensures texts[k..i] + [texts[i]] == texts[k..i + 1]
  {
  }

  // The texts of the nodes from k on.
  method Texts(parts: array<PathPart?>, k: nat, ghost nodes: seq<PathPart>, ghost texts: seq<Text>)
    returns (rest: seq<Text>)
    requires Holds(nodes, texts) && parts[..] == nodes && k <= parts.Length
    ensures rest == texts[k..]
  {
    rest := [];
    assert |parts[..]| == |nodes| == |texts|;
    hide Holds;
    for i := k to parts.Length
      invariant rest == texts[k..i]
    {
      assert parts[i] == parts[..][i] == nodes[i];
      var text := TextOf(parts[i], nodes, texts, i);
      OneMoreText(texts, k, i);
      rest := rest + [text];
    }
  }

  method Prepare(root: PathPart, ghost nodes: seq<PathPart>, ghost path: Text)
    returns (parts: array<PathPart?>, buffer: array<char>)
    requires Valid(path) && OneByteEach(path) && |path| < MAX_PATH
    requires Holds(nodes, Split(path)) && root == nodes[0]
    ensures fresh(parts) && fresh(buffer) && Searchable(parts, buffer, nodes, path)
  {
    var pathSz := CountParts(root, nodes, Split(path));
    forall i | 0 <= i < |nodes|
      ensures nodes[i].next == Follow(nodes, i)
    {
      NextIs(nodes, Split(path), i);
    }
    hide Valid, Split, Holds, Follow, Searchable;
    parts := ListParts(root, pathSz, nodes);
    buffer := new char[MAX_PATH];
    IsSearchable(parts, buffer, nodes, path);
  }

  lemma IsSearchable(parts: array<PathPart?>, buffer: array<char>, nodes: seq<PathPart>, path: Text)
    requires Valid(path) && OneByteEach(path) && |path| < buffer.Length
    requires Holds(nodes, Split(path)) && parts[..] == nodes
    requires forall n :: n in nodes ==> n.part != buffer
    ensures Searchable(parts, buffer, nodes, path)
  {
  }

  // The parts of a path that parses, listed, and a buffer that can hold them joined.
  ghost predicate Searchable(parts: array<PathPart?>, buffer: array<char>, nodes: seq<PathPart>, path: Text)
    reads parts, nodes, set n | n in nodes :: n.part
  {
    && Valid(path) && OneByteEach(path) && |path| < buffer.Length
    && Holds(nodes, Split(path)) && parts[..] == nodes
    && forall n :: n in nodes ==> n.part != buffer
  }

  lemma SearchableParts(parts: array<PathPart?>, buffer: array<char>, nodes: seq<PathPart>, path: Text)
    requires Searchable(parts, buffer, nodes, path)
    ensures parts.Length == |Split(path)| && parts[..] == nodes && Holds(nodes, Split(path)) && Valid(path)
  {
    assert |parts[..]| == |nodes|;
  }

  predicate NamesAreBytes(mounted: seq<Option<Mount>>) {
    forall i :: 0 <= i < |mounted| && mounted[i].Some? ==> OneByteEach(mounted[i].value.filename)
  }

  lemma PrefixIsBytes(path: Text, k: nat)
    requires OneByteEach(path) && k <= |Split(path)|
    ensures OneByteEach(Prefix(path, k))
  {
    var p := Prefix(path, k);
    PrefixLeads(path, k);
    assert p <= path;
    assert forall i :: 0 <= i < |p| ==> p[i] == path[i];
  }
}
