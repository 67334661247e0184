/**
 * `fix_empty_key` in bot.py: the list parsed from the model's answer has its
 * `""` key renamed, in place, in every object that has one, but only when
 * the first element holds `""`.
 */
module EmptyKeyFix {
  import opened Wrappers
  import opened PyDict
  import opened JsonValue

  const OldKey := ""

  /** An object as `json.loads` builds it: each key once. */
  predicate DictLike(x: Json) {
    x.Obj? ==> DistinctKeys(x.members)
  }

  /**
   * Python's `"" in x`: the key test on an object, the substring test on a
   * string, the element test on a list; None where `in` raises TypeError.
   */
  function HoldsEmpty(x: Json): (r: Option<bool>)
    ensures r.None? <==> (x.Null? || x.Bool? || x.Num?)
  {
    match x
    case Obj(members) => Some(Has(members, OldKey))
    case Str(_) => Some(true)
    case Arr(elems) => Some(Str(OldKey) in elems)
    case _ => None
  }

  /** `obj[new_key] = obj.pop("")` on an object holding `""`; anything else is left as it is. */
  function Renamed(x: Json, newKey: string): Json
    requires DictLike(x)
  {
    if x.Obj? && Has(x.members, OldKey) then
      var (v, rest) := Pop(x.members, OldKey);
      Obj(Assign(rest, newKey, v))
    else x
  }

  /**
   * The key order after `obj[new_key] = obj.pop("")`, where `""` sat at
   * position `i`: the key there is cut out, and `newKey` is appended unless
   * it was `present` already.
   */
  function RenamedKeys(keys: seq<string>, i: int, newKey: string, present: bool): seq<string>
    requires 0 <= i < |keys|
  {
    var rest := keys[..i] + keys[i + 1..];
    if present then rest else rest + [newKey]
  }

  /** `fix_empty_key(items, new_key)` on a list; None when testing the first element raises. */
  function FixedEmptyKey(items: seq<Json>, newKey: string): Option<seq<Json>>
    requires forall i | 0 <= i < |items| :: DictLike(items[i])
  {
    if items == [] then Some(items)
    else
      match HoldsEmpty(items[0])
      case None => None
      case Some(false) => Some(items)
      case Some(true) => Some(seq(|items|, i requires 0 <= i < |items| => Renamed(items[i], newKey)))
  }

  /**
   * The list keeps its length and order. When the first element holds `""`,
   * element `i` becomes its renamed form; otherwise nothing changes, even
   * where later objects have `""`. An empty list comes back as it is.
   */
  lemma FixedEmptyKeyShape(items: seq<Json>, newKey: string)
    requires forall i | 0 <= i < |items| :: DictLike(items[i])
    ensures var r := FixedEmptyKey(items, newKey);
      && (r.None? <==> items != [] && HoldsEmpty(items[0]).None?)
      && (r.Some? ==> |r.value| == |items|)
      && (r.Some? && items != [] && HoldsEmpty(items[0]) == Some(true) ==>
            forall i | 0 <= i < |items| :: r.value[i] == Renamed(items[i], newKey))
      && (items == [] || HoldsEmpty(items[0]) == Some(false) ==> r == Some(items))
  {
  }

  /**
   * A renamed object: `""` is gone, `newKey` holds what `""` held, every
   * other key keeps its value, and no key is repeated. The other keys keep
   * their order; `newKey` keeps its place when it was already there and
   * otherwise comes last. Elements that are not objects, or have no `""`
   * key, come back unchanged.
   */
  lemma RenamedObject(x: Json, newKey: string)
    requires DictLike(x) && newKey != OldKey
    ensures var y := Renamed(x, newKey);
      && (x.Obj? && Has(x.members, OldKey) ==>
            && y.Obj? && DistinctKeys(y.members)
            && !Has(y.members, OldKey)
            && Get(y.members, newKey) == Get(x.members, OldKey)
            && (forall k | k != OldKey && k != newKey :: Get(y.members, k) == Get(x.members, k))
            && Keys(y.members) == RenamedKeys(Keys(x.members), IndexOf(x.members, OldKey), newKey, Has(x.members, newKey)))
      && (!(x.Obj? && Has(x.members, OldKey)) ==> y == x)
  {
    if x.Obj? && Has(x.members, OldKey) {
      var y := Renamed(x, newKey);
      assert Get(y.members, OldKey) == None;
      var (v, rest) := Pop(x.members, OldKey);
      assert Has(rest, newKey) == Has(x.members, newKey) by {
        assert Get(rest, newKey) == Get(x.members, newKey);
      }
      AssignKeys(rest, newKey, v);
    }
  }

  /**
   * When the first element holds `""`, every object of the list that had a
   * `""` key ends with that value under `newKey` and no `""` key.
   */
  lemma FixedListRenamesAll(items: seq<Json>, newKey: string, i: int)
    requires forall j | 0 <= j < |items| :: DictLike(items[j])
    requires newKey != OldKey && items != [] && HoldsEmpty(items[0]) == Some(true)
    requires 0 <= i < |items| && items[i].Obj? && Has(items[i].members, OldKey)
    ensures var r := FixedEmptyKey(items, newKey).value;
      && r[i].Obj? && !Has(r[i].members, OldKey)
      && Get(r[i].members, newKey) == Get(items[i].members, OldKey)
  {
    FixedEmptyKeyShape(items, newKey);
    RenamedObject(items[i], newKey);
  }

  /** The loop of `fix_empty_key`; `raised` stands for the TypeError of the first test. */
  method FixEmptyKey(items: array<Json>, newKey: string) returns (raised: bool)
    requires forall i | 0 <= i < items.Length :: DictLike(items[i])
    modifies items
    ensures raised <==> FixedEmptyKey(old(items[..]), newKey).None?
    ensures raised ==> items[..] == old(items[..])
    ensures !raised ==> items[..] == FixedEmptyKey(old(items[..]), newKey).value
  {
    if items.Length == 0 {
      return false;
    }
    var first := HoldsEmpty(items[0]);
    if first.None? {
      return true;
    }
    if !first.value {
      return false;
    }
    var i := 0;
    while i < items.Length
      invariant 0 <= i <= items.Length
      invariant forall j | 0 <= j < i :: items[j] == Renamed(old(items[j]), newKey)
      invariant forall j | i <= j < items.Length :: items[j] == old(items[j])
    {
      items[i] := Renamed(items[i], newKey);
      i := i + 1;
    }
    raised := false;
  }
}
