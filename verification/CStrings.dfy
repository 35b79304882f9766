// Character strings that end with a zero character.
module CStrings {
  // A string as C sees it: no zero among its characters.
  type Text = s: string | '\0' !in s witness ""

  // The memory from a pointer on holds the text and its end.
  predicate Terminated(memory: seq<char>, t: Text) {
    |t| < |memory| && memory[..|t|] == t && memory[|t|] == '\0'
  }

  // Up to its end the memory shows the text, and the zero is its end.
  lemma MemoryAt(memory: seq<char>, t: Text, i: nat)
    requires Terminated(memory, t) && i <= |t|
    ensures memory[i] == if i < |t| then t[i] else '\0'
    ensures memory[i] == '\0' <==> i == |t|
  {
    if i < |t| {
      assert memory[..|t|][i] == t[i];
      assert t[i] in t;
    }
  }

  function Unsigned(c: char): int { c as int % 0x100 }

  function Upto(t: Text, n: int): (r: Text) {
    if n <= 0 then "" else if n < |t| then t[..n] else t
  }

  method Strlen(str: seq<char>, ghost t: Text) returns (len: nat)
    requires Terminated(str, t)
    ensures len == |t|
  {
    len := 0;
    MemoryAt(str, t, 0);
    while str[len] != '\0'
      invariant len <= |t| && (str[len] == '\0' <==> len == |t|)
      decreases |t| - len
    {
      len := len + 1;
      MemoryAt(str, t, len);
    }
  }

  predicate OneByteEach(t: Text) { forall i :: 0 <= i < |t| ==> t[i] as int < 0x100 }

  // The character at a place of a text, or its end.
  function CharAt(t: Text, i: nat): int { if i < |t| then t[i] as int else 0 }

  // The difference of the first two characters that are not the same, before place n.
  ghost predicate FirstDifference(t1: Text, t2: Text, n: int, d: int) {
    exists i: nat ::
      && i < n && i <= |t1| && i <= |t2| && t1[..i] == t2[..i]
      && d == CharAt(t1, i) - CharAt(t2, i) != 0
  }

  // Zero exactly when the first n characters are the same, otherwise the difference of the first
  // two that are not. No character behind the end of either text is looked at.
  method Strncmp(str1: seq<char>, str2: seq<char>, n: int, ghost t1: Text, ghost t2: Text) returns (res: int)
    requires Terminated(str1, t1) && Terminated(str2, t2) && OneByteEach(t1) && OneByteEach(t2)
    ensures res == 0 <==> Upto(t1, n) == Upto(t2, n)
    ensures res != 0 ==> FirstDifference(t1, t2, n, res)
  {
    var i, left := 0, n;
    while left > 0
      invariant i <= |t1| && i <= |t2| && t1[..i] == t2[..i]
      invariant n > 0 ==> left == n - i >= 0
      invariant n <= 0 ==> left == n && i == 0
      decreases left
    {
      left := left - 1;
      var u1, u2 := Unsigned(str1[i]), Unsigned(str2[i]);
      MemoryAt(str1, t1, i);
      MemoryAt(str2, t2, i);
      i := i + 1;
      if u1 != u2 {
        Differ(t1, t2, i - 1, n);
        assert u1 == CharAt(t1, i - 1) && u2 == CharAt(t2, i - 1);
        return u1 - u2;
      }
      if u1 == 0 {
        assert t1[..i - 1] == t1 && t2[..i - 1] == t2;
        return 0;
      }
    }
    return 0;
  }

  lemma Differ(t1: Text, t2: Text, i: nat, n: int)
    requires i < n && i <= |t1| && i <= |t2|
    requires i < |t1| && i < |t2| ==> t1[i] != t2[i]
    requires i < |t1| || i < |t2|
    ensures Upto(t1, n) != Upto(t2, n)
  {
    if i < |t1| && i < |t2| {
      assert Upto(t1, n)[i] == t1[i] && Upto(t2, n)[i] == t2[i];
    }
  }

  // The comparison stops at the end of the first string: zero exactly when it is a prefix of
  // the second.
  method Strcmp(str1: seq<char>, str2: seq<char>, ghost t1: Text, ghost t2: Text) returns (res: int)
    requires Terminated(str1, t1) && Terminated(str2, t2) && OneByteEach(t1) && OneByteEach(t2)
    ensures res == 0 <==> t1 <= t2
    ensures res != 0 ==> FirstDifference(t1, t2, |t1|, res)
  {
    var len := Strlen(str1, t1);
    res := Strncmp(str1, str2, len, t1, t2);
    assert t1 <= t2 <==> Upto(t2, |t1|) == t1;
  }

  // Together with equal lengths that is equality.
  method SameString(str1: seq<char>, str2: seq<char>, ghost t1: Text, ghost t2: Text) returns (same: bool)
    requires Terminated(str1, t1) && Terminated(str2, t2) && OneByteEach(t1) && OneByteEach(t2)
    ensures same <==> t1 == t2
  {
    var len1 := Strlen(str1, t1);
    var len2 := Strlen(str2, t2);
    if len1 != len2 {
      return false;
    }
    var c := Strcmp(str1, str2, t1, t2);
    assert |t1| == |t2| && t1 <= t2 ==> t2[..|t1|] == t2;
    return c == 0;
  }

  // A text put into a buffer from a position on, with its end.
  method Strcpy(dest: array<char>, at: nat, src: seq<char>, ghost t: Text)
    requires Terminated(src, t) && at + |t| < dest.Length
    modifies dest
    ensures dest[..at] == old(dest[..at]) && Terminated(dest[at..], t)
  {
    var i := 0;
    MemoryAt(src, t, 0);
    while src[i] != '\0'
      invariant i <= |t| && (src[i] == '\0' <==> i == |t|) && (i < |t| ==> src[i] == t[i])
      invariant dest[..at] == old(dest[..at]) && dest[at..at + i] == t[..i]
      decreases |t| - i
    {
      dest[at + i] := src[i];
      i := i + 1;
      MemoryAt(src, t, i);
    }
    dest[at + i] := '\0';
    assert dest[at..][..|t|] == dest[at..at + i];
  }
}
