/**
 * The object helpers of util/objects.js: the descriptor duck-type test, the
 * copy of an object's own property descriptors without excluded keys, and
 * per-class instance ids.
 *
 * An object's own properties are a map from property names to values; an
 * object's class and a class's name are inputs (`classOf`, `className`),
 * standing for `getInstanceClass` and `getClassName`.
 */
module Objects {
  import opened Wrappers

  /** The keys a property descriptor may have (util/objects.js:1-8). */
  const DescriptorKeys: seq<string> := ["writable", "configurable", "get", "set", "value", "enumerable"]

  /** The values `isDescriptor` distinguishes: `null` (whose `typeof` is
      "object"), an object with its own enumerable keys, and everything
      else (numbers, strings, booleans, `undefined`, functions). */
  datatype JsValue = Null | Object(ownKeys: seq<string>) | NonObject

  /** `Object.keys(null)` throws a TypeError. */
  datatype TypeError = CannotConvertNull

  /** `keys.every((key) => DESCRIPTOR_KEYS.includes(key))`. */
  function EveryDescriptorKey(keys: seq<string>): (b: bool)
    ensures b <==> forall i | 0 <= i < |keys| :: keys[i] in DescriptorKeys
  {
    if keys == [] then true
    else keys[0] in DescriptorKeys && EveryDescriptorKey(keys[1..])
  }

  /** `isDescriptor(obj)`: false for anything that is not an object; for an
      object, whether every own key is a descriptor key (so the empty
      object is a descriptor); `null` passes the `typeof` test and makes
      `Object.keys` throw. */
  function IsDescriptor(v: JsValue): (r: Result<bool, TypeError>)
    ensures r.Err? <==> v == Null
    ensures v.NonObject? ==> r == Ok(false)
    ensures v.Object? ==> (r == Ok(true) <==> forall k | k in v.ownKeys :: k in DescriptorKeys)
  {
    match v
    case Null => Err(CannotConvertNull)
    case Object(keys) => Ok(EveryDescriptorKey(keys))
    case NonObject => Ok(false)
  }

  /** A single key that is not a descriptor key makes an object fail the
      test, wherever it stands among the keys. */
  lemma {:induction false} ForeignKeyRefutes(keys: seq<string>, i: nat)
    requires i < |keys| && keys[i] !in DescriptorKeys
    ensures IsDescriptor(Object(keys)) == Ok(false)
  {
    assert !EveryDescriptorKey(keys);
  }

  /** `getPropDescriptors(obj, exclude)`: `Object.getOwnPropertyDescriptors`
      maps every own property of the object, enumerable or not, to its
      descriptor; `obj` here is that map. Every key listed in `exclude` is
      deleted from it, one key at a time in a `for...in` loop, so the
      result holds each remaining own property with the object's
      descriptor for it; the object itself is never touched. */
  method GetPropDescriptors<V>(obj: map<string, V>, exclude: seq<string>) returns (props: map<string, V>)
    ensures forall k :: k in props <==> k in obj && k !in exclude
    ensures forall k | k in props :: props[k] == obj[k]
  {
    props := obj;
    var todo := obj.Keys;
    while todo != {}
      invariant todo <= obj.Keys
      invariant forall k :: k in props <==> k in obj && (k in todo || k !in exclude)
      invariant forall k | k in props :: props[k] == obj[k]
      decreases |todo|
    {
      var prop :| prop in todo;
      if prop in exclude {
        props := props - {prop};
      }
      todo := todo - {prop};
    }
  }

  // ---------------------------------------------------------------------
  // Instance ids

  /** The decimal digit of `d`. */
  function Digit(d: nat): (c: char)
    requires d < 10
    ensures '0' <= c <= '9' && c as int - '0' as int == d
  {
    ('0' as int + d) as char
  }

  /** The decimal numeral of `n`, as a template literal renders it. */
  function Decimal(n: nat): (s: string)
    ensures |s| >= 1 && forall i | 0 <= i < |s| :: '0' <= s[i] <= '9'
    ensures n >= 1 ==> s[0] != '0'
  {
    if n < 10 then [Digit(n)] else Decimal(n / 10) + [Digit(n % 10)]
  }

  /** The number a string of decimal digits denotes. */
  function ParseDecimal(s: string): nat
    requires forall i | 0 <= i < |s| :: '0' <= s[i] <= '9'
  {
    if s == [] then 0 else 10 * ParseDecimal(s[..|s| - 1]) + (s[|s| - 1] as int - '0' as int)
  }

  /** Reading the numeral back gives the number. */
  lemma {:induction false} DecimalRoundTrip(n: nat)
    ensures ParseDecimal(Decimal(n)) == n
  {
    var s := Decimal(n);
    if n >= 10 {
      DecimalRoundTrip(n / 10);
      assert s[..|s| - 1] == Decimal(n / 10);
    }
  }

  /** The id string of an instance: class name, `#`, uid. It begins with
      the class name and a `#`, and the uid's digits follow. */
  function IdString(name: string, id: nat): (s: string)
    ensures |s| > |name| + 1 && s[..|name|] == name && s[|name|] == '#'
  {
    name + "#" + Decimal(id)
  }

  /** An id string splits back into the class name and the uid at its last
      `#`, even when the class name itself contains one. */
  lemma IdStringSplits(name: string, id: nat)
    ensures var s := IdString(name, id);
      && s[..|name|] == name && s[|name|] == '#'
      && (forall i | |name| < i < |s| :: s[i] != '#')
      && (forall i | |name| < i < |s| :: '0' <= s[i] <= '9')
      && ParseDecimal(s[|name| + 1..]) == id
  {
    var s := IdString(name, id);
    assert s[|name| + 1..] == Decimal(id);
    DecimalRoundTrip(id);
  }

  /** The per-class counters of util/objects.js:29-30 and the ids stamped on
      objects (the non-writable `UID` symbol property). `classOf` and
      `className` stand for `getInstanceClass` and `getClassName`. */
  class UidRegistry<O(==), C(==)> {
    const classOf: O -> C
    const className: C -> string
    /** `uidCounters`: the last id handed out per class. */
    var counters: map<C, nat>
    /** `obj[UID]` of every object stamped so far. */
    var stamps: map<O, nat>

    /** Every stamp is at least 1 and at most its class's counter, and no
        two objects of one class share a stamp. */
    ghost predicate Valid()
      reads this
    {
      && (forall o | o in stamps :: classOf(o) in counters && 1 <= stamps[o] <= counters[classOf(o)])
      && (forall o1, o2 | o1 in stamps && o2 in stamps && o1 != o2 && classOf(o1) == classOf(o2) ::
            stamps[o1] != stamps[o2])
    }

    constructor (classOf: O -> C, className: C -> string)
      ensures Valid() && this.classOf == classOf && this.className == className
      ensures counters == map[] && stamps == map[]
    {
      this.classOf := classOf;
      this.className := className;
      counters := map[];
      stamps := map[];
    }

    /** `uid(obj)`: an object already stamped keeps its id; otherwise its
        class's counter (0 when there is none) is incremented, stored, and
        stamped on the object. */
    method Uid(obj: O) returns (id: nat)
      requires Valid()
      modifies this`counters, this`stamps
      ensures Valid() && obj in stamps && stamps[obj] == id && id >= 1
      ensures obj in old(stamps) ==> id == old(stamps[obj]) && counters == old(counters) && stamps == old(stamps)
      ensures obj !in old(stamps) ==>
        var c := classOf(obj);
        && id == (if c in old(counters) then old(counters[c]) else 0) + 1
        && counters == old(counters)[c := id]
        && stamps == old(stamps)[obj := id]
    {
      if obj !in stamps {
        var cls := classOf(obj);
        var counter := if cls in counters then counters[cls] else 0;
        counter := counter + 1;
        counters := counters[cls := counter];
        stamps := stamps[obj := counter];
      }
      id := stamps[obj];
    }

    /** `fullId(obj)`: the class name, `#`, and `uid(obj)`. */
    method FullId(obj: O) returns (s: string)
      requires Valid()
      modifies this`counters, this`stamps
      ensures Valid() && obj in stamps
      ensures s == IdString(className(classOf(obj)), stamps[obj])
      ensures obj in old(stamps) ==> counters == old(counters) && stamps == old(stamps)
      ensures obj !in old(stamps) ==>
        var c := classOf(obj);
        && counters == old(counters)[c := stamps[obj]]
        && stamps[obj] == (if c in old(counters) then old(counters[c]) else 0) + 1
        && stamps == old(stamps)[obj := stamps[obj]]
    {
      var name := className(classOf(obj));
      var id := Uid(obj);
      s := IdString(name, id);
    }
  }

  /** Ids within a class are handed out 1, 2, 3, ..., a repeated call
      returns the same id, and another class counts on its own. */
  method UidScenario() returns (a1: nat, a2: nat, again: nat, b1: nat)
    ensures a1 == 1 && a2 == 2 && again == 1 && b1 == 1
  {
    var registry := new UidRegistry<int, bool>((o: int) => o < 100, (c: bool) => if c then "A" else "B");
    a1 := registry.Uid(1);
    a2 := registry.Uid(2);
    again := registry.Uid(1);
    b1 := registry.Uid(100);
  }

  /** The second instance of class `A` is `A#2`. */
  method FullIdScenario() returns (full: string)
    ensures full == "A#2"
  {
    var registry := new UidRegistry<int, bool>((o: int) => o < 100, (c: bool) => if c then "A" else "B");
    var first := registry.Uid(1);
    full := registry.FullId(2);
    assert Decimal(2) == "2";
  }
}
