/**
 * String objects (src/object.c): FNV-1a hashing, and interning through the
 * VM's string table so that equal strings are one object.
 */
module Objects {
  import opened Common
  import opened Values
  import Tables

  /** The FNV-1a 32-bit offset basis and prime. */
  const FnvOffsetBasis: U32 := 2166136261
  const FnvPrime: U32 := 16777619

  /** The byte a character contributes: `(u8)c`, its low eight bits. */
  function ByteOf(c: char): Byte {
    (c as int) % 256
  }

  /** `h ^ b` for a byte `b`: only the low eight bits of `h` change. */
  function XorByte(h: U32, b: Byte): (r: U32)
    ensures r / 256 == h / 256
  {
    h - h % 256 + (((h % 256) as bv8 ^ b as bv8) as int)
  }

  /** One round of FNV-1a: xor in the byte, then multiply modulo 2^32 (u32 wrap-around). */
  function FnvStep(h: U32, c: char): U32 {
    (XorByte(h, ByteOf(c)) * FnvPrime) % 0x1_0000_0000
  }

  /** The rounds of FNV-1a over `s`, starting from `h`. */
  function FnvFold(h: U32, s: seq<char>): U32
    decreases |s|
  {
    if s == [] then h else FnvFold(FnvStep(h, s[0]), s[1..])
  }

  /** The FNV-1a hash of a string. */
  function Fnv1a(s: seq<char>): U32 {
    FnvFold(FnvOffsetBasis, s)
  }

  /** Hashing a concatenation continues from the hash of the first part. */
  lemma {:induction false} FnvFoldAppend(h: U32, a: seq<char>, b: seq<char>)
    ensures FnvFold(h, a + b) == FnvFold(FnvFold(h, a), b)
    decreases |a|
  {
    if a != [] {
      var h' := FnvStep(h, a[0]);
      assert (a + b)[0] == a[0] && (a + b)[1..] == a[1..] + b;
      assert FnvFold(h, a + b) == FnvFold(h', a[1..] + b);
      assert FnvFold(h, a) == FnvFold(h', a[1..]);
      FnvFoldAppend(h', a[1..], b);
    } else {
      assert a + b == b;
    }
  }

  /** The empty string hashes to the offset basis; one more character is one more round. */
  lemma Fnv1aSnoc(s: seq<char>, c: char)
    ensures Fnv1a([]) == FnvOffsetBasis
    ensures Fnv1a(s + [c]) == FnvStep(Fnv1a(s), c)
  {
    FnvFoldAppend(FnvOffsetBasis, s, [c]);
  }

  /** The published FNV-1a test vector for "a". */
  lemma Fnv1aOfA()
    ensures Fnv1a("a") == 0xe40c292c
  {
    assert (0xc5 as bv8 ^ 0x61 as bv8) == 0xa4;
    assert XorByte(FnvOffsetBasis, ByteOf('a')) == 0x811c9da4;
    assert "a"[1..] == [];
    assert Fnv1a("a") == FnvStep(FnvOffsetBasis, 'a');
  }

  /** hash_string: the FNV-1a hash, one byte per round. */
  method HashString(key: seq<char>) returns (hash: U32)
    ensures hash == Fnv1a(key)
  {
    hash := FnvOffsetBasis;
    for i := 0 to |key|
      invariant FnvFold(hash, key[i..]) == Fnv1a(key)
    {
      assert key[i..][0] == key[i] && key[i..][1..] == key[i + 1..];
      hash := FnvStep(hash, key[i]);
    }
  }

  /** `list` is the object list starting at `head`, following `next` until null. */
  ghost predicate Linked(head: ObjString?, list: seq<ObjString>) {
    (if list == [] then head == null else head == list[0] && list[|list| - 1].next == null) &&
    (forall i :: 0 <= i < |list| - 1 ==> list[i].next == list[i + 1])
  }

  /** allocate_obj's link: the new object points at the old head and becomes the head. */
  lemma LinkedCons(head: ObjString?, list: seq<ObjString>, r: ObjString)
    requires Linked(head, list) && r.next == head
    ensures Linked(r, [r] + list)
  {
    var l := [r] + list;
    forall i | 0 <= i < |l| - 1
      ensures l[i].next == l[i + 1]
    {
      if i > 0 {
        assert l[i] == list[i - 1] && l[i + 1] == list[i];
      }
    }
  }

  /**
   * The intern table's mapping as clox keeps it: every key carries its own
   * hash and maps to nil, no two keys have the same characters, and every
   * key is on the object list.
   */
  ghost predicate Interning(m: map<ObjString, Value>, list: seq<ObjString>) {
    (forall k :: k in m ==> k.hash == Fnv1a(k.chars) && m[k] == Nil) &&
    (forall k1, k2 :: k1 in m && k2 in m && k1.chars == k2.chars ==> k1 == k2) &&
    (forall k :: k in m ==> k in list)
  }

  /** Interning a string with new characters, also pushed on the list, keeps the mapping as clox keeps it. */
  lemma InterningAdd(m: map<ObjString, Value>, list: seq<ObjString>, r: ObjString)
    requires Interning(m, list) && r.hash == Fnv1a(r.chars)
    requires forall k :: k in m ==> k.chars != r.chars
    ensures Interning(m[r := Nil], [r] + list)
  {
  }

  /**
   * The part of the VM that string allocation touches: the intern table
   * `strings` and the list of all objects, `objects` being its most recent
   * one. `objectList` is that list in order, newest first.
   */
  class Heap {
    const strings: Tables.Table
    var objects: ObjString?
    ghost var objectList: seq<ObjString>

    /**
     * The table is valid; every interned string carries its own hash and
     * maps to nil; no two interned strings have the same characters; every
     * interned string is on the object list, which is linked through `next`.
     */
    ghost predicate Valid()
      reads this, strings, strings.entries
    {
      strings.Valid() && Interning(strings.Contents(), objectList) && Linked(objects, objectList)
    }

    /** The interned string with these characters, if any. */
    ghost function Interned(chars: seq<char>): (r: Option<ObjString>)
      reads this, strings, strings.entries
      requires Valid()
      ensures r.Some? ==> r.value in strings.Contents() && r.value.chars == chars
      ensures r.None? ==> forall k :: k in strings.Contents() ==> k.chars != chars
    {
      if k :| k in strings.Contents() && k.chars == chars then Some(k) else None
    }

    /** The VM's initial heap: an empty table and no objects. */
    constructor ()
      ensures Valid() && fresh(strings) && strings.Contents() == map[] && objectList == []
    {
      strings := new Tables.Table();
      objects := null;
      objectList := [];
    }

    /**
     * allocate_string (with allocate_obj): a new string object, pushed on the
     * object list and interned with a nil value. The callers have just found
     * no string with these characters.
     */
    method AllocateString(chars: seq<char>, hash: U32) returns (r: ObjString)
      requires Valid() && hash == Fnv1a(chars) && Interned(chars).None?
      modifies this, strings, strings.entries
      ensures Valid() && fresh(r) && r.chars == chars && r.hash == hash
      ensures strings.Contents() == old(strings.Contents())[r := Nil]
      ensures objectList == [r] + old(objectList) && r.next == old(objects)
      ensures strings.entries == old(strings.entries) || fresh(strings.entries)
    {
      ghost var m := strings.Contents();
      assert forall k :: k in m ==> k.chars != chars;
      r := new ObjString(chars, hash, objects);
      LinkedCons(objects, objectList, r);
      objects := r;
      objectList := [r] + objectList;
      var _, _ := strings.Set(r, Nil);
      InterningAdd(m, old(objectList), r);
    }

    /**
     * copy_str: the interned string with these characters if there is one,
     * otherwise a new string object, interned.
     */
    method CopyStr(chars: seq<char>) returns (r: ObjString)
      requires Valid()
      modifies this, strings, strings.entries
      ensures Valid()
      ensures strings.entries == old(strings.entries) || fresh(strings.entries)
      ensures r.chars == chars && r.hash == Fnv1a(chars) && Interned(chars) == Some(r)
      ensures old(Interned(chars)).Some? ==>
        r == old(Interned(chars)).value && strings.Contents() == old(strings.Contents()) && objectList == old(objectList)
      ensures old(Interned(chars)).None? ==>
        fresh(r) && strings.Contents() == old(strings.Contents())[r := Nil] && objectList == [r] + old(objectList)
    {
      var hash := HashString(chars);
      var interned := strings.FindString(chars, hash);
      if interned != null {
        return interned;
      }
      r := AllocateString(chars, hash);
    }

    /**
     * take_str: like copy_str, but the characters come in a buffer the
     * caller hands over (freed when an interned copy already exists).
     */
    method TakeStr(chars: seq<char>) returns (r: ObjString)
      requires Valid()
      modifies this, strings, strings.entries
      ensures Valid()
      ensures strings.entries == old(strings.entries) || fresh(strings.entries)
      ensures r.chars == chars && r.hash == Fnv1a(chars) && Interned(chars) == Some(r)
      ensures old(Interned(chars)).Some? ==>
        r == old(Interned(chars)).value && strings.Contents() == old(strings.Contents()) && objectList == old(objectList)
      ensures old(Interned(chars)).None? ==>
        fresh(r) && strings.Contents() == old(strings.Contents())[r := Nil] && objectList == [r] + old(objectList)
    {
      var hash := HashString(chars);
      var interned := strings.FindString(chars, hash);
      if interned != null {
        return interned;
      }
      r := AllocateString(chars, hash);
    }
  }
}
