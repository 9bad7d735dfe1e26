/**
 * The tagged-union value (include/value.h), value equality and the growable
 * value array (src/value.c), and the heap string object (include/object.h).
 */
module Values {
  import opened Common
  import opened Memory

  /**
   * A heap string (struct ObjString): its bytes, their 32-bit hash and the
   * link to the object allocated before it on the VM's object list. The
   * source writes every field once, while allocating, so they are constants.
   * The byte count `length` is `|chars|`; the NUL terminator is implicit.
   */
  class ObjString {
    const chars: seq<char>
    const hash: U32
    const next: ObjString?

    constructor (chars: seq<char>, hash: U32, next: ObjString?)
      ensures this.chars == chars && this.hash == hash && this.next == next
    {
      this.chars := chars;
      this.hash := hash;
      this.next := next;
    }
  }

  /**
   * A value: nil, a boolean, a number or a reference to a heap object. Numbers
   * are exact reals, not IEEE doubles.
   */
  datatype Value = Nil | Bool(boolean: bool) | Number(number: real) | Obj(obj: ObjString)

  /** The tag of a value (ValueType). */
  datatype ValueType = ValNil | ValBool | ValNumber | ValObj

  function TypeOf(v: Value): ValueType {
    match v
    case Nil => ValNil
    case Bool(_) => ValBool
    case Number(_) => ValNumber
    case Obj(_) => ValObj
  }

  // The IS_* macros: a test of the tag.
  predicate IsNil(v: Value) { TypeOf(v) == ValNil }
  predicate IsBool(v: Value) { TypeOf(v) == ValBool }
  predicate IsNumber(v: Value) { TypeOf(v) == ValNumber }
  predicate IsObj(v: Value) { TypeOf(v) == ValObj }

  // The AS_* macros read the union member; the source uses them only after the matching IS_* test.
  function AsBool(v: Value): bool requires IsBool(v) { v.boolean }
  function AsNumber(v: Value): real requires IsNumber(v) { v.number }
  function AsObj(v: Value): ObjString requires IsObj(v) { v.obj }

  /** NIL_VAL satisfies IS_NIL and none of the other tests. */
  lemma NilValTag()
    ensures IsNil(Nil) && !IsBool(Nil) && !IsNumber(Nil) && !IsObj(Nil)
  {
  }

  /** BOOL_VAL, NUMBER_VAL and OBJ_VAL are read back by the matching accessor. */
  lemma ConstructorsRoundTrip(b: bool, x: real, o: ObjString)
    ensures IsBool(Bool(b)) && AsBool(Bool(b)) == b
    ensures IsNumber(Number(x)) && AsNumber(Number(x)) == x
    ensures IsObj(Obj(o)) && AsObj(Obj(o)) == o
  {
  }

  /** Exactly one of IS_NIL, IS_BOOL, IS_NUMBER and IS_OBJ holds of any value. */
  lemma ExactlyOneTag(v: Value)
    ensures IsNil(v) || IsBool(v) || IsNumber(v) || IsObj(v)
    ensures IsNil(v) ==> !IsBool(v) && !IsNumber(v) && !IsObj(v)
    ensures IsBool(v) ==> !IsNumber(v) && !IsObj(v)
    ensures IsNumber(v) ==> !IsObj(v)
  {
  }

  /**
   * values_equal: false when the tags differ; nil equals nil, booleans and
   * numbers compare by value, objects by identity.
   */
  function ValuesEqual(a: Value, b: Value): bool {
    if TypeOf(a) != TypeOf(b) then false
    else match a
      case Nil => true
      case Bool(x) => x == b.boolean
      case Number(x) => x == b.number
      case Obj(o) => o == b.obj
  }

  /**
   * In the model, values_equal is exactly equality of values: object
   * references compare by identity, never by the strings' contents.
   */
  lemma ValuesEqualIsIdentity(a: Value, b: Value)
    ensures ValuesEqual(a, b) <==> a == b
    ensures TypeOf(a) != TypeOf(b) ==> !ValuesEqual(a, b)
    ensures ValuesEqual(a, b) == ValuesEqual(b, a)
  {
  }

  /** A growable array of values (ValueArray): `count` items in use out of `alloc`. */
  class ValueArray {
    var count: nat
    var alloc: nat
    var items: array<Value>

    ghost predicate Valid()
      reads this
    {
      items.Length == alloc && count <= alloc
    }

    /** The values written so far, in order. */
    ghost function Contents(): seq<Value>
      reads this, items
      requires Valid()
    {
      items[..count]
    }

    /** init_ValueArray: count 0 and alloc 0. */
    constructor ()
      ensures Valid() && fresh(items)
      ensures count == 0 && alloc == 0 && Contents() == []
    {
      count := 0;
      alloc := 0;
      items := new Value[0];
    }

    /**
     * write_ValueArray: grows to GROW_CAPACITY(alloc) only when full, then
     * stores the value at index `count`; earlier items are unchanged.
     */
    method Write(value: Value)
      requires Valid()
      modifies this, items
      ensures Valid() && (items == old(items) || fresh(items))
      ensures Contents() == old(Contents()) + [value]
      ensures alloc == if old(alloc) < old(count) + 1 then GrowCapacity(old(alloc)) else old(alloc)
    {
      if alloc < count + 1 {
        var oldAlloc := alloc;
        alloc := GrowCapacity(oldAlloc);
        var grown := new Value[alloc];
        forall i | 0 <= i < oldAlloc {
          grown[i] := items[i];
        }
        items := grown;
      }
      items[count] := value;
      count := count + 1;
    }
  }
}
