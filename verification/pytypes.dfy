/**
 * Python classes as the parser machinery sees them: named classes with their (transitively
 * closed) superclasses, and the `issubclass`/`isinstance` checks over a tuple of classes,
 * including the `TypeError` these raise on special forms such as `typing.Union`.
 */
module PyTypes {
  import opened Wrappers

  /** A class, named by its qualified name. A name missing from a hierarchy is not a class. */
  type TypeKey = string

  const OBJECT: TypeKey := "object"
  const NONE_TYPE: TypeKey := "NoneType"
  const INT: TypeKey := "int"
  const BOOL: TypeKey := "bool"
  const FLOAT: TypeKey := "float"
  const STR: TypeKey := "str"
  const BYTES: TypeKey := "bytes"
  const TUPLE: TypeKey := "tuple"
  const LIST: TypeKey := "list"
  const SET: TypeKey := "set"
  const FROZENSET: TypeKey := "frozenset"
  const DICT: TypeKey := "dict"
  const COLLECTION: TypeKey := "collections.abc.Collection"
  const SEQUENCE: TypeKey := "collections.abc.Sequence"
  const MUTABLE_SEQUENCE: TypeKey := "collections.abc.MutableSequence"
  const ABSTRACT_SET: TypeKey := "collections.abc.Set"
  const MAPPING: TypeKey := "collections.abc.Mapping"
  const ENUM: TypeKey := "enum.Enum"
  const FLAG: TypeKey := "enum.Flag"
  const INT_ENUM: TypeKey := "enum.IntEnum"
  const DISNAKE_ENUM: TypeKey := "disnake.Enum"
  const BASE_FLAGS: TypeKey := "disnake.flags.BaseFlags"
  /** Special forms: not classes, so `issubclass` and `isinstance` refuse them. */
  const UNION: TypeKey := "typing.Union"
  const LITERAL: TypeKey := "typing.Literal"

  /** What a class knows about itself: all its proper superclasses, and whether it is abstract. */
  datatype ClassInfo = ClassInfo(supers: set<TypeKey>, isAbstract: bool)

  datatype Hierarchy = Hierarchy(classes: map<TypeKey, ClassInfo>)

  predicate IsClass(h: Hierarchy, c: TypeKey) {
    c in h.classes
  }

  /** Superclass sets name classes and are closed under taking superclasses. */
  predicate WellFormed(h: Hierarchy) {
    forall c, d :: c in h.classes && d in h.classes[c].supers ==>
      d in h.classes && h.classes[d].supers <= h.classes[c].supers
  }

  /** `issubclass(c, d)` for two classes (reflexive). */
  predicate Subclass(h: Hierarchy, c: TypeKey, d: TypeKey) {
    c == d || (c in h.classes && d in h.classes[c].supers)
  }

  lemma SubclassTransitive(h: Hierarchy, a: TypeKey, b: TypeKey, c: TypeKey)
    requires WellFormed(h) && IsClass(h, a)
    requires Subclass(h, a, b) && Subclass(h, b, c)
    ensures Subclass(h, a, c)
  {
    if a != b && b != c {
      assert b in h.classes && h.classes[b].supers <= h.classes[a].supers;
    }
  }

  /**
   * `issubclass(c, (t1, ..., tn))`: the entries are tried in order; an empty tuple is `False`
   * whatever `c` is; otherwise a non-class `c`, or a non-class entry reached before a hit,
   * raises `TypeError`.
   */
  function IsSubclassOfAny(h: Hierarchy, c: TypeKey, ts: seq<TypeKey>): (r: Result<bool>)
    ensures r.Err? ==> r.exc == TypeError
    ensures r == Ok(true) ==> exists i :: 0 <= i < |ts| && Subclass(h, c, ts[i])
  {
    if ts == [] then Ok(false)
    else if !IsClass(h, c) || !IsClass(h, ts[0]) then Err(TypeError)
    else if Subclass(h, c, ts[0]) then Ok(true)
    else IsSubclassOfAny(h, c, ts[1..])
  }

  /**
   * `isinstance(v, (t1, ..., tn))` where `c` is `type(v)`: like `IsSubclassOfAny`, except that
   * the first argument is always a class.
   */
  function IsInstanceOfAny(h: Hierarchy, c: TypeKey, ts: seq<TypeKey>): (r: Result<bool>)
    ensures r.Err? ==> r.exc == TypeError
    ensures r == Ok(true) ==> exists i :: 0 <= i < |ts| && Subclass(h, c, ts[i])
  {
    if ts == [] then Ok(false)
    else if c != ts[0] && !IsClass(h, ts[0]) then Err(TypeError)
    else if Subclass(h, c, ts[0]) then Ok(true)
    else IsInstanceOfAny(h, c, ts[1..])
  }

  /** `_issubclass`: `issubclass`, falling back to identity when `issubclass` raises. */
  function SubclassOrSame(h: Hierarchy, c: TypeKey, ts: seq<TypeKey>): bool
  {
    match IsSubclassOfAny(h, c, ts)
    case Ok(b) => b
    case Err(_) => c in ts
  }

  /** Between classes, `_issubclass` is exactly "a subclass of some entry". */
  lemma {:induction false} SubclassOrSameOfClasses(h: Hierarchy, c: TypeKey, ts: seq<TypeKey>)
    requires IsClass(h, c) && forall i :: 0 <= i < |ts| ==> IsClass(h, ts[i])
    ensures SubclassOrSame(h, c, ts) <==> exists i :: 0 <= i < |ts| && Subclass(h, c, ts[i])
    ensures IsSubclassOfAny(h, c, ts).Ok?
  {
    if ts != [] && !Subclass(h, c, ts[0]) {
      SubclassOrSameOfClasses(h, c, ts[1..]);
      if exists i :: 0 <= i < |ts| && Subclass(h, c, ts[i]) {
        var i :| 0 <= i < |ts| && Subclass(h, c, ts[i]);
        assert ts[1..][i - 1] == ts[i];
      }
    }
  }

  /** A special form (not a class) is matched only by itself. */
  lemma NonClassMatchesByIdentity(h: Hierarchy, c: TypeKey, ts: seq<TypeKey>)
    requires !IsClass(h, c)
    ensures SubclassOrSame(h, c, ts) <==> c in ts
  {
  }

  /** The classes the parser machinery of this library refers to. */
  function StdHierarchy(): (h: Hierarchy)
  {
    var abstractColl := {COLLECTION, OBJECT};
    Hierarchy(map[
      OBJECT := ClassInfo({}, false),
      NONE_TYPE := ClassInfo({OBJECT}, false),
      INT := ClassInfo({OBJECT}, false),
      BOOL := ClassInfo({INT, OBJECT}, false),
      FLOAT := ClassInfo({OBJECT}, false),
      STR := ClassInfo({SEQUENCE, COLLECTION, OBJECT}, false),
      BYTES := ClassInfo({SEQUENCE, COLLECTION, OBJECT}, false),
      TUPLE := ClassInfo({SEQUENCE, COLLECTION, OBJECT}, false),
      LIST := ClassInfo({MUTABLE_SEQUENCE, SEQUENCE, COLLECTION, OBJECT}, false),
      SET := ClassInfo({ABSTRACT_SET, COLLECTION, OBJECT}, false),
      FROZENSET := ClassInfo({ABSTRACT_SET, COLLECTION, OBJECT}, false),
      DICT := ClassInfo({MAPPING, COLLECTION, OBJECT}, false),
      COLLECTION := ClassInfo({OBJECT}, true),
      SEQUENCE := ClassInfo(abstractColl, true),
      MUTABLE_SEQUENCE := ClassInfo({SEQUENCE, COLLECTION, OBJECT}, true),
      ABSTRACT_SET := ClassInfo(abstractColl, true),
      MAPPING := ClassInfo(abstractColl, true),
      ENUM := ClassInfo({OBJECT}, false),
      FLAG := ClassInfo({ENUM, OBJECT}, false),
      INT_ENUM := ClassInfo({INT, ENUM, OBJECT}, false),
      DISNAKE_ENUM := ClassInfo({ENUM, OBJECT}, false),
      BASE_FLAGS := ClassInfo({OBJECT}, false)
    ])
  }
}
