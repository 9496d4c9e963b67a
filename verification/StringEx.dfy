/** The strings of core/src/stringex.c: an array with a terminating NUL that is shifted and overwritten in place. */
module StringEx {
  import opened CStrings
  import opened Wrappers
  import opened StringRewrite

  /** The C string in an array ends at n. */
  ghost predicate EndsAt(data: array<char>, n: nat)
    reads data
  {
    n < data.Length && data[n] == '\0' && '\0' !in data[..n]
  }

  lemma {:induction false} FindToNul(t: string, n: nat, p: nat, pat: string)
    requires p <= n < |t| && t[n] == '\0' && '\0' !in t[..n] && '\0' !in pat
    ensures Find(t, p, pat) == Find(t[..n], p, pat)
    decreases n - p
  {
    hide Find, At;
    FindStep(t, p, pat);
    FindStep(t[..n], p, pat);
    AtSlice(t, 0, n);
    assert t[0..n] == t[..n];
    if p + |pat| <= n {
      AtWithin(t, 0, t[..n], p, pat);
    } else {
      AtIndex(t, p, pat, n - p);
      AtEnds(t[..n], p, pat);
    }
    if p < n {
      FindToNul(t, n, p + 1, pat);
    }
  }

  /** string_index_of_substr on the array; -1 stands for no occurrence. */
  method IndexOfSubstr(data: array<char>, sub: string, ghost n: nat) returns (pos: int)
    requires EndsAt(data, n) && '\0' !in sub
    ensures pos == -1 || 0 <= pos
    ensures Find(data[..n], 0, sub) == if pos < 0 then None else Some(pos)
  {
    hide Find;
    FindToNul(data[..], n, 0, sub);
    var r := FindSubstring(data[..], 0, sub);
    assert data[..][..n] == data[..n];
    pos := if r == None then -1 else r.value;
  }

  method Length(data: array<char>, ghost n: nat) returns (length: nat)
    requires EndsAt(data, n)
    ensures length == n
  {
    length := 0;
    while data[length] != '\0'
      invariant length <= n
      decreases n - length
    {
      length := length + 1;
    }
  }

  /** strcpy of the tail at from to pos, terminator and all. */
  method CopyTail(data: array<char>, pos: nat, from: nat, ghost n: nat)
    requires EndsAt(data, n) && pos <= from <= n
    modifies data
    ensures EndsAt(data, n - (from - pos))
    ensures data[..n - (from - pos)] == old(data[..pos]) + old(data[from..n])
  {
    var k := 0;
    while data[from + k] != '\0'
      invariant from + k <= n && EndsAt(data, n)
      invariant data[..pos + k] == old(data[..pos]) + old(data[from..from + k])
      invariant data[from + k..] == old(data[from + k..])
      decreases n - k
    {
      ghost var before := data[..pos + k];
      assert data[from + k] == data[from + k..][0] == old(data[from + k]);
      ghost var c := data[from + k];
      data[pos + k] := data[from + k];
      k := k + 1;
      assert data[..pos + k] == before + [c];
      assert old(data[from..from + k]) == old(data[from..from + k - 1]) + [c];
    }
    data[pos + k] := '\0';
  }

  /** One turn of the removal: the tail is copied down, and the end that the size speaks of is cut once more. */
  method RemoveAt(data: array<char>, pos: nat, length: nat, size: nat, ghost n: nat)
    requires EndsAt(data, n) && pos + length <= n <= size < data.Length
    modifies data
    ensures EndsAt(data, n - length)
    ensures data[..n - length] == old(data[..n])[..pos] + old(data[..n])[pos + length..]
  {
    ghost var s := data[..n];
    assert data[..pos] == s[..pos] && data[pos + length..n] == s[pos + length..];
    CopyTail(data, pos, pos + length, n);
    ghost var rest := data[..n - length];
    data[size - length] := '\0';
    assert data[..n - length] == rest;
  }

  lemma RemoveStep(s: string, pat: string, p: nat)
    requires |pat| > 0 && Find(s, 0, pat) == Some(p)
    ensures p + |pat| <= |s| && RemoveAll(s, pat) == RemoveAll(s[..p] + s[p + |pat|..], pat)
  {
    hide Find;
  }

  lemma RemoveDone(s: string, pat: string)
    requires |pat| > 0 && Find(s, 0, pat) == None
    ensures RemoveAll(s, pat) == s
  {
    hide Find;
  }

  class StringEx {
    var data: array<char>
    var dataSize: nat

    ghost predicate Valid()
      reads this, data
    {
      EndsAt(data, dataSize)
    }

    ghost function Contents(): string
      requires Valid()
      reads this, data
    {
      data[..dataSize]
    }

    constructor (text: string)
      requires '\0' !in text
      ensures Valid() && Contents() == text && fresh(data)
    {
      data := new char[|text| + 1](i => if 0 <= i < |text| then text[i] else '\0');
      dataSize := |text|;
      new;
      assert data[..dataSize] == text;
    }

    /** Called on what the loop ends on. The size is brought up to date only at the end; meanwhile the array is a C string that gets shorter. */
    method RemoveSubstrAll(sub: string)
      requires Valid() && '\0' !in sub && RemovalEnds(Contents(), sub)
      modifies this, data
      ensures Valid() && data == old(data)
      ensures |sub| > 0 && Contents() == RemoveAll(old(Contents()), sub)
    {
      hide Find, At, RemovalEnds, RemoveAll;
      RemovalEndsIff(Contents(), sub);
      ghost var n: nat := dataSize;
      var pos := IndexOfSubstr(data, sub, n);
      while pos >= 0
        modifies data
        invariant 0 <= n <= dataSize && EndsAt(data, n)
        invariant RemoveAll(data[..n], sub) == RemoveAll(old(Contents()), sub)
        invariant Find(data[..n], 0, sub) == if pos < 0 then None else Some(pos)
        decreases n
      {
        RemoveStep(data[..n], sub, pos);
        RemoveAt(data, pos, |sub|, dataSize, n);
        n := n - |sub|;
        pos := IndexOfSubstr(data, sub, n);
      }
      RemoveDone(data[..n], sub);
      dataSize := Length(data, n);
    }

    /** The loop that searches from the beginning after every replacement. */
    method ReplaceSubstrAll(pattern: string, replacement: string)
      requires Valid() && '\0' !in pattern && '\0' !in replacement && Converges(Contents(), pattern, replacement)
      modifies this, data
      ensures Valid() && (data == old(data) || fresh(data))
      ensures |pattern| == 0 ==> Contents() == old(Contents())
      ensures |pattern| > 0 ==> !Occurs(Contents(), pattern)
      ensures |pattern| > 0 ==> forall n: nat :: DoneAfter(old(Contents()), pattern, replacement, n) ==>
        Contents() == Iterate(old(Contents()), pattern, replacement, n)
    {
      hide Find, At, Iterate, ReplaceOnce;
      if |pattern| < 1 {
        return;
      }
      ghost var start := Contents();
      ghost var total: nat :| DoneAfter(start, pattern, replacement, total);
      ghost var left: nat := total;
      var pos := IndexOfSubstr(data, pattern, dataSize);
      while pos >= 0
        invariant Valid() && (data == old(data) || fresh(data))
        invariant 0 <= left && DoneAfter(Contents(), pattern, replacement, left)
        invariant Iterate(Contents(), pattern, replacement, left) == Iterate(start, pattern, replacement, total)
        invariant pos == -1 || 0 <= pos
        invariant Find(Contents(), 0, pattern) == if pos < 0 then None else Some(pos)
        decreases left
      {
        IterateStep(Contents(), pattern, replacement, left, pos);
        ReplaceAt(pos, pattern, replacement);
        left := left - 1;
        pos := IndexOfSubstr(data, pattern, dataSize);
      }
      DoneStays(Contents(), pattern, replacement, left);
      FindIffOccurs(Contents(), pattern);
      forall n: nat | DoneAfter(start, pattern, replacement, n) ensures Contents() == Iterate(start, pattern, replacement, n) {
        ResultIsUnique(start, pattern, replacement, total, n);
      }
    }

    /** One replacement: room is made, the tail is shifted, the new text is copied. */
    method ReplaceAt(pos: nat, pattern: string, replacement: string)
      requires Valid() && At(Contents(), pos, pattern) && '\0' !in replacement
      modifies this, data
      ensures Valid() && (data == old(data) || fresh(data))
      ensures pos + |pattern| <= |old(Contents())|
      ensures Contents() == Replaced(old(Contents()), pos, pattern, replacement)
    {
      hide At, Replaced;
      AtEnds(Contents(), pos, pattern);
      data := ReplaceIn(data, dataSize, pos, pattern, replacement);
      dataSize := dataSize - |pattern| + |replacement|;
    }
  }

  method ReplaceIn(data: array<char>, size: nat, pos: nat, pattern: string, replacement: string) returns (room: array<char>)
    requires EndsAt(data, size) && pos + |pattern| <= size && '\0' !in replacement
    modifies data
    ensures room == data || fresh(room)
    ensures EndsAt(room, size - |pattern| + |replacement|)
    ensures room[..size - |pattern| + |replacement|] == Replaced(old(data[..size]), pos, pattern, replacement)
  {
    ghost var s := data[..size];
    NoNulIn(s, pos, pattern, replacement);
    room := AdjustStorage(data, size, size - |pattern| + |replacement|);
    assert room[..size] == room[..size + 1][..size] == s;
    assert room[..pos] == s[..pos] && room[pos + |pattern|..size] == s[pos + |pattern|..];
    Splice(room, size, pos, |pattern|, replacement);
  }

  /** Shifts the tail when the lengths differ, copies the new text, and ends the string. */
  method Splice(data: array<char>, size: nat, pos: nat, oldLength: nat, text: string)
    requires pos + oldLength <= size < data.Length && size - oldLength + |text| < data.Length
    modifies data
    ensures data[..size - oldLength + |text|] == old(data[..pos]) + text + old(data[pos + oldLength..size])
    ensures data[size - oldLength + |text|] == '\0'
  {
    ghost var head, tail := data[..pos], data[pos + oldLength..size];
    ghost var newSize := size - oldLength + |text|;
    ShiftTail(data, pos + oldLength, pos + |text|, size);
    assert data[pos + |text|..][..|tail|] == data[pos + |text|..newSize] == tail;
    assert data[..pos] == head;
    CopyInto(data, pos, text);
    assert data[pos + |text|..newSize] == data[pos + |text|..][..|tail|];
    assert data[..newSize] == data[..pos] + data[pos..pos + |text|] + data[pos + |text|..newSize];
    ghost var whole := data[..newSize];
    data[size - oldLength + |text|] := '\0';
    assert data[..newSize] == whole;
  }

  lemma NoNulIn(s: string, p: nat, pattern: string, replacement: string)
    requires '\0' !in s && '\0' !in replacement && p + |pattern| <= |s|
    ensures '\0' !in Replaced(s, p, pattern, replacement)
  {
  }

  lemma IterateStep(s: string, pattern: string, replacement: string, n: nat, pos: nat)
    requires Find(s, 0, pattern) == Some(pos) && DoneAfter(s, pattern, replacement, n)
    ensures n > 0 && At(s, pos, pattern) && pos + |pattern| <= |s|
    ensures DoneAfter(Replaced(s, pos, pattern, replacement), pattern, replacement, n - 1)
    ensures Iterate(s, pattern, replacement, n) == Iterate(Replaced(s, pos, pattern, replacement), pattern, replacement, n - 1)
  {
    hide Find;
  }

  /** An array with room for a text of this size and its NUL; how much more it gets is not modelled. */
  method AdjustStorage(data: array<char>, size: nat, newSize: nat) returns (room: array<char>)
    requires size < data.Length
    ensures newSize < room.Length && size < room.Length && (room == data || fresh(room))
    ensures room[..size + 1] == data[..size + 1]
  {
    room := data;
    if newSize >= data.Length {
      room := new char[if newSize < size then size + 1 else newSize + 1](_ => '\0');
      forall i | 0 <= i <= size {
        room[i] := data[i];
      }
    }
  }

  /** Moves data[from..end] to another place, from the far end when it moves to the right. */
  method ShiftTail(data: array<char>, from: nat, to: nat, end: nat)
    requires from <= end < data.Length && to + (end - from) < data.Length
    modifies data
    ensures data[to..to + (end - from)] == old(data[from..end])
    ensures forall i :: 0 <= i < from && i < to ==> data[i] == old(data[i])
  {
    if to > from {
      var i: int := end;
      while i >= from
        invariant from - 1 <= i <= end
        invariant forall j :: i < j <= end ==> data[j + (to - from)] == old(data[j])
        invariant forall j :: 0 <= j <= i ==> data[j] == old(data[j])
        invariant forall j :: 0 <= j < from ==> data[j] == old(data[j])
      {
        data[i + (to - from)] := data[i];
        i := i - 1;
      }
    } else if to < from {
      var i := from;
      while i <= end
        invariant from <= i <= end + 1
        invariant forall j :: to <= j < i - (from - to) ==> data[j] == old(data[j + (from - to)])
        invariant forall j :: i <= j <= end ==> data[j] == old(data[j])
        invariant forall j :: 0 <= j < to ==> data[j] == old(data[j])
      {
        data[i - (from - to)] := data[i];
        i := i + 1;
      }
    }
    ghost var moved, tail := data[to..to + (end - from)], old(data[from..end]);
    forall k | 0 <= k < |tail| ensures moved[k] == tail[k] {
      if to > from {
        assert data[(from + k) + (to - from)] == old(data[from + k]);
      }
    }
  }

  method CopyInto(data: array<char>, pos: nat, text: string)
    requires pos + |text| < data.Length
    modifies data
    ensures data[pos..pos + |text|] == text
    ensures data[..pos] == old(data[..pos]) && data[pos + |text|..] == old(data[pos + |text|..])
  {
    for i := 0 to |text|
      invariant data[pos..pos + i] == text[..i]
      invariant data[..pos] == old(data[..pos]) && data[pos + |text|..] == old(data[pos + |text|..])
    {
      data[pos + i] := text[i];
      assert data[pos..pos + i + 1] == data[pos..pos + i] + [text[i]];
    }
  }
}
