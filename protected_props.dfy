/**
 * The protected-property helpers of protected-props.js: a property is
 * protected when its name starts with `$_`; the protected properties of an
 * object are collected under their names without that prefix, and must be
 * configurable so that they can be removed from a class.
 */
module ProtectedProps {
  import opened Wrappers
  import Objects

  /** `s.substring(start, end)`: both bounds are clamped to `0..|s|` and
      swapped when out of order. */
  function Substring(s: string, start: int, end: int): (r: string)
    ensures 0 <= start <= end <= |s| ==> r == s[start..end]
    ensures |r| <= |s|
  {
    var a := if start < 0 then 0 else if start > |s| then |s| else start;
    var b := if end < 0 then 0 else if end > |s| then |s| else end;
    if a <= b then s[a..b] else s[b..a]
  }

  /** `isProtectedProp(prop)`: the first two characters are `$_`; a name
      shorter than two characters is its own two-character prefix and so is
      never protected. The test reads those two characters and nothing
      else. */
  predicate IsProtectedProp(prop: string): (b: bool)
    ensures b <==> |prop| >= 2 && prop[0] == '$' && prop[1] == '_'
  {
    assert |prop| >= 2 ==> Substring(prop, 0, 2) == prop[..2];
    Substring(prop, 0, 2) == "$_"
  }

  /** `trimProp(prop)`: `prop.substring(2)`, everything after the first two
      characters, and empty for a shorter name. */
  function TrimProp(prop: string): (r: string)
    ensures |prop| >= 2 ==> r == prop[2..]
    ensures |prop| < 2 ==> r == ""
  {
    Substring(prop, 2, |prop|)
  }

  /** The prefix `$_` put in front of a name. */
  function Prefixed(name: string): string
  {
    "$_" + name
  }

  /** Trimming a protected name and putting the prefix back gives the name. */
  lemma TrimRoundTrip(prop: string)
    requires IsProtectedProp(prop)
    ensures Prefixed(TrimProp(prop)) == prop
  {
    assert prop == prop[..2] + prop[2..];
  }

  /** Prefixing any name makes it protected, and trimming takes the prefix
      off again. */
  lemma PrefixRoundTrip(name: string)
    ensures IsProtectedProp(Prefixed(name)) && TrimProp(Prefixed(name)) == name
  {
    assert Prefixed(name)[2..] == name;
  }

  /** The protected names of an object's keys. */
  ghost function ProtectedKeys<V>(obj: map<string, V>): set<string>
  {
    set prop | prop in obj && IsProtectedProp(prop)
  }

  /** Two sets that `f` and `g` map onto each other, each undoing the
      other, are the same size. */
  lemma {:induction false} InverseCount<A, B>(xs: set<A>, ys: set<B>, f: A -> B, g: B -> A)
    requires forall x | x in xs :: f(x) in ys && g(f(x)) == x
    requires forall y | y in ys :: g(y) in xs && f(g(y)) == y
    ensures |xs| == |ys|
    decreases |xs|
  {
    if xs == {} {
      assert ys == {};
    } else {
      var x :| x in xs;
      var xs', ys' := xs - {x}, ys - {f(x)};
      InverseCount(xs', ys', f, g);
      assert |xs| == |xs'| + 1 && |ys| == |ys'| + 1;
    }
  }

  /** The trimmed protected names are as many as the protected names. */
  lemma TrimmedCount(found: set<string>, keys: set<string>)
    requires forall name | name in found :: Prefixed(name) in keys
    requires forall prop | prop in keys :: IsProtectedProp(prop) && TrimProp(prop) in found
    ensures |found| == |keys|
  {
    forall name | name in found ensures TrimProp(Prefixed(name)) == name {
      PrefixRoundTrip(name);
    }
    forall prop | prop in keys ensures Prefixed(TrimProp(prop)) == prop {
      TrimRoundTrip(prop);
    }
    InverseCount(found, keys, Prefixed, TrimProp);
  }

  /** The one name under which assigning to a plain object adds no own
      entry: `__proto__` is an accessor inherited from `Object.prototype`,
      and its setter at most replaces the object's prototype. */
  const ProtoName: string := "__proto__"

  /** `findProtectedProps(obj)`: a `for...in` loop over the keys of `obj`
      that assigns the value of every protected key to its trimmed name in
      a fresh plain object. Every trimmed name but `__proto__` becomes an
      entry holding the value of its untrimmed key; `$___proto__` goes
      through the inherited setter and adds none. So there are as many
      entries as protected keys, less that one; unprefixed keys contribute
      nothing. */
  method FindProtectedProps<V>(obj: map<string, V>) returns (found: map<string, V>)
    ensures forall prop | prop in obj && IsProtectedProp(prop) && TrimProp(prop) != ProtoName ::
      TrimProp(prop) in found && found[TrimProp(prop)] == obj[prop]
    ensures ProtoName !in found
    ensures forall name | name in found :: Prefixed(name) in obj && found[name] == obj[Prefixed(name)]
    ensures |found| == |ProtectedKeys(obj)| - (if Prefixed(ProtoName) in obj then 1 else 0)
  {
    found := map[];
    var todo := obj.Keys;
    while todo != {}
      invariant todo <= obj.Keys
      invariant forall prop | prop in obj && prop !in todo && IsProtectedProp(prop) && TrimProp(prop) != ProtoName ::
        TrimProp(prop) in found && found[TrimProp(prop)] == obj[prop]
      invariant ProtoName !in found
      invariant forall name | name in found :: Prefixed(name) in obj && found[name] == obj[Prefixed(name)]
      decreases |todo|
    {
      var prop :| prop in todo;
      if IsProtectedProp(prop) && TrimProp(prop) != ProtoName {
        TrimRoundTrip(prop);
        found := found[TrimProp(prop) := obj[prop]];
      }
      todo := todo - {prop};
    }
    ProtectedCountWithoutProto(obj, found.Keys);
  }

  /** The names a `findProtectedProps` result may hold, counted against the
      protected keys of `obj`: one fewer when `$___proto__` is among them. */
  lemma ProtectedCountWithoutProto<V>(obj: map<string, V>, names: set<string>)
    requires ProtoName !in names
    requires forall name | name in names :: Prefixed(name) in obj
    requires forall prop | prop in obj && IsProtectedProp(prop) && TrimProp(prop) != ProtoName :: TrimProp(prop) in names
    ensures |names| == |ProtectedKeys(obj)| - (if Prefixed(ProtoName) in obj then 1 else 0)
  {
    var proto := Prefixed(ProtoName);
    var keys := ProtectedKeys(obj) - {proto};
    PrefixRoundTrip(ProtoName);
    forall name | name in names ensures Prefixed(name) in keys {
      PrefixRoundTrip(name);
    }
    forall prop | prop in keys ensures IsProtectedProp(prop) && TrimProp(prop) in names {
      TrimRoundTrip(prop);
    }
    TrimmedCount(names, keys);
  }

  /** A key `$___proto__` is lost, the other protected key is kept under
      its trimmed name, and an unprefixed key is ignored. */
  method ProtoKeyScenario() returns (found: map<string, int>)
    ensures found == map["a" := 2]
  {
    var obj := map["$___proto__" := 1, "$_a" := 2, "b" := 3];
    PrefixRoundTrip("a");
    PrefixRoundTrip(ProtoName);
    assert Prefixed("a") == "$_a" && Prefixed(ProtoName) == "$___proto__";
    found := FindProtectedProps(obj);
    assert "a" in found;
    forall name | name in found ensures name == "a" {
      var key := Prefixed(name);
      assert key in obj && key[2..] == name;
    }
  }

  /** A property descriptor; only `configurable` is consulted. */
  datatype Descriptor = Descriptor(configurable: bool)

  /** What `validatePropDescriptors` is handed: an array of `[prop, desc]`
      pairs, as it expects, or a plain object, which has no `some`. */
  datatype PropList =
    | Pairs(pairs: seq<(string, Descriptor)>)
    | PlainObject(props: map<string, Descriptor>)

  datatype PropError =
    /** The Error thrown for a protected prop that is not configurable. */
    | NotConfigurable(prop: string)
    /** The TypeError of calling a method the value does not have. */
    | NotAFunction(name: string)

  /** The position of the first pair whose descriptor is not configurable:
      the callback of `some` throws there. */
  function FirstUnconfigurable(pairs: seq<(string, Descriptor)>): (k: Option<nat>)
    ensures k.Some? ==> k.value < |pairs| && !pairs[k.value].1.configurable
    ensures k.Some? ==> forall j | 0 <= j < k.value :: pairs[j].1.configurable
    ensures k.None? <==> forall j | 0 <= j < |pairs| :: pairs[j].1.configurable
  {
    if pairs == [] then None
    else if !pairs[0].1.configurable then Some(0)
    else match FirstUnconfigurable(pairs[1..])
      case None => None
      case Some(k) => Some(k + 1)
  }

  /** `validatePropDescriptors(props)`: fails exactly when some pair has a
      descriptor that is not configurable, naming the first such prop;
      otherwise it succeeds without effect. A plain object fails at once,
      because it has no `some`. */
  function ValidatePropDescriptors(props: PropList): (err: Option<PropError>)
    ensures props.PlainObject? ==> err == Some(NotAFunction("some"))
    ensures props.Pairs? ==> (err.None? <==> forall j | 0 <= j < |props.pairs| :: props.pairs[j].1.configurable)
    ensures props.Pairs? && err.Some? ==>
      exists i | 0 <= i < |props.pairs| ::
        && err.value == NotConfigurable(props.pairs[i].0)
        && !props.pairs[i].1.configurable
        && forall j | 0 <= j < i :: props.pairs[j].1.configurable
  {
    match props
    case PlainObject(_) => Some(NotAFunction("some"))
    case Pairs(pairs) =>
      match FirstUnconfigurable(pairs)
      case None => None
      case Some(k) => Some(NotConfigurable(pairs[k].0))
  }

  /** `extractProtectedProps(obj, exclude)`: the own property descriptors of
      `obj` without `exclude`, their protected ones, then the validation.
      `findProtectedProps` returns a plain object, so the validation always
      throws, before the loop that would delete the protected props from
      `obj`: every call fails, whatever `obj` and `exclude` are, and `obj`
      (here the map of its own property descriptors) is never changed. */
  method ExtractProtectedProps(obj: map<string, Descriptor>, exclude: seq<string>)
    returns (res: Result<map<string, Descriptor>, PropError>)
    ensures res == Err(NotAFunction("some"))
  {
    var props := Objects.GetPropDescriptors(obj, exclude);
    var protectedProps := FindProtectedProps(props);
    var err := ValidatePropDescriptors(PlainObject(protectedProps));
    match err
    case Some(e) => res := Err(e);
  }
}
