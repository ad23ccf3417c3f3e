/**
 A filter parameter of the scopehal signal-analysis library: a value of one
 fixed kind, an integer slot that also carries booleans, and a table of
 enumerated symbols held as a forward map (name to code) and a reverse map
 (code to name).
 */
module Parameters {
  import opened KeyOrder

  /** C++ `int`, the type of an enumeration code. */
  newtype int32 = x: int | -0x8000_0000 <= x < 0x8000_0000

  /** C++ `int64_t`, the type of the integer payload slot. */
  newtype int64 = x: int | -0x8000_0000_0000_0000 <= x < 0x8000_0000_0000_0000

  /** The seven payload kinds a parameter can be declared with. */
  datatype ParameterType =
    | TypeFloat
    | TypeInt
    | TypeBool
    | TypeFilename   // one file
    | TypeFilenames  // several files
    | TypeEnum       // an enumerated constant
    | TypeString     // arbitrary text

  // ---------------------------------------------------------------------
  // The boolean payload, carried by the integer slot

  /** Reading the integer slot as a boolean: any non-zero value is true. */
  function BoolOfInt(i: int64): bool
  {
    i != 0
  }

  /** C++'s conversion of `bool` to `int64_t`, used when a boolean is stored. */
  function IntOfBool(b: bool): (i: int64)
    ensures i == 0 || i == 1
    ensures BoolOfInt(i) == b
  {
    if b then 1 else 0
  }

  /**
   Storing back the boolean read from the slot leaves the slot as it was
   exactly when it held 0 or 1; any other value is normalised to 1.
   */
  lemma BoolSlotNormalises(i: int64)
    ensures IntOfBool(BoolOfInt(i)) == i <==> i == 0 || i == 1
    ensures i != 0 ==> IntOfBool(BoolOfInt(i)) == 1
  {
  }

  // ---------------------------------------------------------------------
  // The two enumeration maps

  /** Each map inverts the other: every entry has its mirror image. */
  ghost predicate Consistent(fwd: map<string, int32>, rev: map<int32, string>)
  {
    && (forall name :: name in fwd ==> fwd[name] in rev && rev[fwd[name]] == name)
    && (forall code :: code in rev ==> rev[code] in fwd && fwd[rev[code]] == code)
  }

  /**
   Adding `(name, value)` meets no earlier pairing: the name is new or already
   bound to `value`, and the value is new or already bound to `name`.
   */
  ghost predicate NoConflict(fwd: map<string, int32>, rev: map<int32, string>, name: string, value: int32)
  {
    && (name !in fwd || fwd[name] == value)
    && (value !in rev || rev[value] == name)
  }

  /**
   Re-adding a known name with a new value leaves the reverse entry of the
   old value pointing at that name, while the name now maps elsewhere.
   */
  lemma StaleReverseEntry(fwd: map<string, int32>, rev: map<int32, string>, name: string, value: int32)
    requires Consistent(fwd, rev)
    requires name in fwd && fwd[name] != value
    ensures var was := fwd[name];
      && was in rev[value := name] && rev[value := name][was] == name
      && fwd[name := value][name] != was
  {
  }

  /**
   Reusing a known value for a new name leaves the forward entry of the old
   name pointing at that value, while the value now maps elsewhere.
   */
  lemma StaleForwardEntry(fwd: map<string, int32>, rev: map<int32, string>, name: string, value: int32)
    requires Consistent(fwd, rev)
    requires value in rev && rev[value] != name
    ensures var was := rev[value];
      && was in fwd[name := value] && fwd[name := value][was] == value
      && rev[value := name][value] != was
  {
  }

  /**
   From consistent maps, the two independent writes of `AddEnumValue` give
   consistent maps again exactly when the pair meets no earlier pairing.
   */
  lemma AddKeepsConsistent(fwd: map<string, int32>, rev: map<int32, string>, name: string, value: int32)
    requires Consistent(fwd, rev)
    ensures Consistent(fwd[name := value], rev[value := name]) <==> NoConflict(fwd, rev, name, value)
  {
    var fwd', rev' := fwd[name := value], rev[value := name];
    if NoConflict(fwd, rev, name, value) {
      forall n | n in fwd'
        ensures fwd'[n] in rev' && rev'[fwd'[n]] == n
      {
        if n != name {
          assert fwd[n] != value;
        }
      }
      forall c | c in rev'
        ensures rev'[c] in fwd' && fwd'[rev'[c]] == c
      {
        if c != value {
          assert rev[c] != name;
        }
      }
    } else if name in fwd && fwd[name] != value {
      StaleReverseEntry(fwd, rev, name, value);
      assert !Consistent(fwd', rev') by {
        var was := fwd[name];
        assert rev'[was] == name && fwd'[name] != was;
      }
    } else {
      StaleForwardEntry(fwd, rev, name, value);
      assert !Consistent(fwd', rev') by {
        var was := rev[value];
        assert fwd'[was] == value && rev'[value] != was;
      }
    }
  }

  // ---------------------------------------------------------------------
  // The maps as a function of the calls that built them

  /** One call `AddEnumValue(name, value)`. */
  datatype EnumEntry = EnumEntry(name: string, value: int32)

  /** The forward map after the calls `entries`, in order, from empty maps. */
  ghost function ForwardAfter(entries: seq<EnumEntry>): map<string, int32>
  {
    if entries == [] then map[]
    else
      var last := entries[|entries| - 1];
      ForwardAfter(entries[..|entries| - 1])[last.name := last.value]
  }

  /** The reverse map after the calls `entries`, in order, from empty maps. */
  ghost function ReverseAfter(entries: seq<EnumEntry>): map<int32, string>
  {
    if entries == [] then map[]
    else
      var last := entries[|entries| - 1];
      ReverseAfter(entries[..|entries| - 1])[last.value := last.name]
  }

  /**
   The forward map's keys are exactly the names ever added (later calls
   overwrite earlier values), and the reverse map's keys exactly the codes.
   */
  lemma {:induction false} AfterKeys(entries: seq<EnumEntry>)
    ensures forall n :: n in ForwardAfter(entries) <==> exists i :: 0 <= i < |entries| && entries[i].name == n
    ensures forall c :: c in ReverseAfter(entries) <==> exists i :: 0 <= i < |entries| && entries[i].value == c
  {
    if entries != [] {
      var init := entries[..|entries| - 1];
      AfterKeys(init);
      forall n
        ensures n in ForwardAfter(entries) <==> exists i :: 0 <= i < |entries| && entries[i].name == n
      {
        if exists i :: 0 <= i < |entries| && entries[i].name == n {
          var i :| 0 <= i < |entries| && entries[i].name == n;
          if i < |init| {
            assert init[i].name == n;
          }
        }
      }
      forall c
        ensures c in ReverseAfter(entries) <==> exists i :: 0 <= i < |entries| && entries[i].value == c
      {
        if exists i :: 0 <= i < |entries| && entries[i].value == c {
          var i :| 0 <= i < |entries| && entries[i].value == c;
          if i < |init| {
            assert init[i].value == c;
          }
        }
      }
    }
  }

  /**
   When no two calls share a name and no two share a code, the reverse map
   inverts the forward map, and every call's pair is present in both.
   */
  lemma {:induction false} DistinctEntriesConsistent(entries: seq<EnumEntry>)
    requires forall i, j :: 0 <= i < j < |entries| ==> entries[i].name != entries[j].name
    requires forall i, j :: 0 <= i < j < |entries| ==> entries[i].value != entries[j].value
    ensures Consistent(ForwardAfter(entries), ReverseAfter(entries))
    ensures forall i :: 0 <= i < |entries| ==>
      && entries[i].name in ForwardAfter(entries)
      && ForwardAfter(entries)[entries[i].name] == entries[i].value
      && entries[i].value in ReverseAfter(entries)
      && ReverseAfter(entries)[entries[i].value] == entries[i].name
  {
    if entries != [] {
      var init := entries[..|entries| - 1];
      var last := entries[|entries| - 1];
      DistinctEntriesConsistent(init);
      AfterKeys(init);
      forall i | 0 <= i < |init|
        ensures init[i].name != last.name && init[i].value != last.value
      {
        assert init[i] == entries[i];
      }
      AddKeepsConsistent(ForwardAfter(init), ReverseAfter(init), last.name, last.value);
      forall i | 0 <= i < |init|
        ensures entries[i] == init[i]
      {
      }
    }
  }

  // ---------------------------------------------------------------------
  // The parameter object

  class FilterParameter {
    /** The declared kind, fixed by the constructor. */
    const kind: ParameterType

    /** Symbolic name to integer code. */
    var forwardEnumMap: map<string, int32>
    /** Integer code to symbolic name. */
    var reverseEnumMap: map<int32, string>
    /** The integer payload, which also holds booleans. */
    var intval: int64

    /** Every `AddEnumValue` call made so far, oldest first. */
    ghost var history: seq<EnumEntry>

    /** The maps are what the recorded calls build from empty maps. */
    ghost predicate Valid()
      reads this`forwardEnumMap, this`reverseEnumMap, this`history
    {
      && forwardEnumMap == ForwardAfter(history)
      && reverseEnumMap == ReverseAfter(history)
    }

    ghost predicate EnumConsistent()
      reads this
    {
      Consistent(forwardEnumMap, reverseEnumMap)
    }

    /**
     A new parameter has empty enumeration maps; its kind defaults to
     `TypeFloat`. The initial integer payload is a parameter of the model.
     */
    constructor(intval: int64, kind: ParameterType := TypeFloat)
      ensures Valid() && history == []
      ensures this.kind == kind && this.intval == intval
      ensures forwardEnumMap == map[] && reverseEnumMap == map[]
      ensures EnumConsistent()
    {
      this.kind := kind;
      this.intval := intval;
      forwardEnumMap := map[];
      reverseEnumMap := map[];
      history := [];
    }

    function GetType(): (t: ParameterType)
      ensures t == kind
    {
      kind
    }

    function GetBoolVal(): (b: bool)
      reads this
      ensures b <==> intval != 0
    {
      BoolOfInt(intval)
    }

    method SetBoolVal(b: bool)
      modifies this`intval
      ensures intval == IntOfBool(b)
      ensures GetBoolVal() == b
      ensures forwardEnumMap == old(forwardEnumMap) && reverseEnumMap == old(reverseEnumMap)
    {
      intval := IntOfBool(b);
    }

    /** Binds `name` to `value` in the forward map and `value` to `name` in the reverse map. */
    method AddEnumValue(name: string, value: int32)
      requires Valid()
      modifies this`forwardEnumMap, this`reverseEnumMap, this`history
      ensures Valid() && history == old(history) + [EnumEntry(name, value)]
      ensures forwardEnumMap == old(forwardEnumMap)[name := value]
      ensures reverseEnumMap == old(reverseEnumMap)[value := name]
      ensures name in forwardEnumMap && forwardEnumMap[name] == value
      ensures value in reverseEnumMap && reverseEnumMap[value] == name
      ensures forall n :: n != name ==>
        (n in forwardEnumMap <==> n in old(forwardEnumMap)) &&
        (n in forwardEnumMap ==> forwardEnumMap[n] == old(forwardEnumMap)[n])
      ensures forall c :: c != value ==>
        (c in reverseEnumMap <==> c in old(reverseEnumMap)) &&
        (c in reverseEnumMap ==> reverseEnumMap[c] == old(reverseEnumMap)[c])
      ensures intval == old(intval)
      ensures old(EnumConsistent()) ==>
        (EnumConsistent() <==> NoConflict(old(forwardEnumMap), old(reverseEnumMap), name, value))
    {
      ghost var fwd, rev := forwardEnumMap, reverseEnumMap;
      forwardEnumMap := forwardEnumMap[name := value];
      reverseEnumMap := reverseEnumMap[value := name];
      history := history + [EnumEntry(name, value)];
      assert history[..|history| - 1] == old(history);
      if Consistent(fwd, rev) {
        AddKeepsConsistent(fwd, rev, name, value);
      }
    }

    /**
     Appends the legal symbolic names to `values`, visiting the forward map
     in key order; the parameter itself is not changed.
     */
    method GetEnumValues(values: seq<string>) returns (result: seq<string>)
      ensures result == values + SortedKeys(forwardEnumMap.Keys)
      ensures |result| == |values| + |forwardEnumMap|
      ensures result[..|values|] == values
      ensures forall n :: n in result[|values|..] <==> n in forwardEnumMap
      ensures StrictlySorted(result[|values|..])
    {
      result := values;
      var remaining := forwardEnumMap.Keys;
      while remaining != {}
        invariant remaining <= forwardEnumMap.Keys
        invariant result + SortedKeys(remaining) == values + SortedKeys(forwardEnumMap.Keys)
        decreases remaining
      {
        LeastExists(remaining);
        var name :| name in remaining && IsLeast(name, remaining);
        LeastUnique(name, Least(remaining), remaining);
        assert SortedKeys(remaining) == [name] + SortedKeys(remaining - {name});
        result := result + [name];
        remaining := remaining - {name};
      }
      assert SortedKeys(remaining) == [];
      assert result == values + SortedKeys(forwardEnumMap.Keys);
      SortedKeysSpec(forwardEnumMap.Keys);
      assert result[|values|..] == SortedKeys(forwardEnumMap.Keys);
    }
  }

  /**
   The symbols "Rising" and "Falling" are listed in key order, which is not
   the order they were added in.
   */
  lemma EnumOrderExample()
    ensures SortedKeys({"Rising", "Falling"}) == ["Falling", "Rising"]
  {
    var q := ["Falling", "Rising"];
    assert Less(q[0], q[1]);
    SortedKeysUnique(q, {"Rising", "Falling"});
  }

  /**
   An edge-selection parameter, set up the way a trigger filter would set
   one up: the listing
   comes out in key order, and re-adding "Rising" with the code of "Falling"
   leaves the reverse map's entry for 0 pointing at "Rising".
   */
  method TriggerEdgeExample()
  {
    var p := new FilterParameter(0, TypeEnum);
    p.AddEnumValue("Rising", 0);
    p.AddEnumValue("Falling", 1);
    assert p.forwardEnumMap == map["Rising" := 0, "Falling" := 1];
    assert p.EnumConsistent();
    assert p.forwardEnumMap.Keys == {"Rising", "Falling"};
    var names := p.GetEnumValues([]);
    EnumOrderExample();
    assert names == ["Falling", "Rising"];
    p.AddEnumValue("Rising", 1);
    assert !p.EnumConsistent();
    assert p.reverseEnumMap[0] == "Rising" && p.forwardEnumMap["Rising"] == 1;
    p.SetBoolVal(true);
    assert p.GetBoolVal() && p.GetType() == TypeEnum;
    var q := new FilterParameter(0);
    assert q.GetType() == TypeFloat;
  }
}
