/**
  The aggregate-function registry: a base registry of constructors keyed by
  case-insensitive function name, and a combinator registry keyed by
  case-insensitive name suffix (a combinator wraps a base constructor into a
  variant of it). Both are ordered association lists in insertion order, as
  the process-wide ordered maps are once populated; the locks around them are
  not modelled.

  The constructors are opaque values of the type parameters `F` (base) and
  `C` (combinator); `Resolve` decides which constructor is called with which
  name, and `Get` calls it through the functions it is given.
 */
module AggregateFunctionFactory {
  import opened Wrappers
  import opened Exception
  import opened Ascii

  datatype Registry<F, C> = Registry(functions: seq<(string, F)>, combinators: seq<(string, C)>)

  /**
    A registry the program can build: each map is keyed by case-insensitive
    names, so no two keys of one map are equal up to case.
   */
  predicate ValidRegistry<F, C>(reg: Registry<F, C>) {
    && (forall i, j :: 0 <= i < j < |reg.functions| ==> !EqualsIgnoreCase(reg.functions[i].0, reg.functions[j].0))
    && (forall i, j :: 0 <= i < j < |reg.combinators| ==> !EqualsIgnoreCase(reg.combinators[i].0, reg.combinators[j].0))
  }

  /** The constructor `get` ends up calling. */
  datatype Creation<F, C> =
      // a base constructor registered under the requested name
    | Direct(creator: F)
      // a combinator wrapping the base constructor of `nestedName`
    | Combined(combinator: C, nestedName: string, nested: F)

  function NotFound(name: string): ErrorCode {
    UnknownAggregateFunction("Unsupported AggregateFunction: " + name)
  }

  /** The position of the first entry whose key satisfies `p`. */
  function FindFirst<V>(entries: seq<(string, V)>, p: string -> bool): (r: Option<nat>)
    ensures r.Some? ==> r.value < |entries| && p(entries[r.value].0)
                        && forall j :: 0 <= j < r.value ==> !p(entries[j].0)
    ensures r.None? <==> forall j :: 0 <= j < |entries| ==> !p(entries[j].0)
  {
    if |entries| == 0 then None
    else if p(entries[0].0) then Some(0)
    else match FindFirst(entries[1..], p)
      case None => None
      case Some(i) => Some(i + 1)
  }

  /** Case-insensitive key lookup, as a map keyed by a case-insensitive string does it. */
  function FindKey<V>(entries: seq<(string, V)>, name: string): (r: Option<nat>)
    ensures r.Some? <==> Registered(entries, name)
    ensures r.Some? ==> r.value < |entries| && EqualsIgnoreCase(entries[r.value].0, name)
  {
    var p := key => EqualsIgnoreCase(key, name);
    var r := FindFirst(entries, p);
    assert forall j :: 0 <= j < |entries| ==> p(entries[j].0) == EqualsIgnoreCase(entries[j].0, name);
    r
  }

  /** Some key of `entries` equals `name` up to case. */
  predicate Registered<V>(entries: seq<(string, V)>, name: string) {
    exists i :: 0 <= i < |entries| && EqualsIgnoreCase(entries[i].0, name)
  }

  /** The key of combinator `j`, lower-cased, is a suffix of `lowerName`. */
  predicate SuffixMatches<C>(combinators: seq<(string, C)>, lowerName: string, j: int)
    requires 0 <= j < |combinators|
  {
    EndsWith(lowerName, ToLower(combinators[j].0))
  }

  /** Combinator `j` is the first one, in registration order, whose suffix matches. */
  predicate FirstSuffix<C>(combinators: seq<(string, C)>, lowerName: string, j: int) {
    && 0 <= j < |combinators|
    && SuffixMatches(combinators, lowerName, j)
    && forall k :: 0 <= k < j ==> !SuffixMatches(combinators, lowerName, k)
  }

  /** Combinator `j` matches and the name with its suffix stripped is a registered base name. */
  predicate RemainderRegistered<F, C>(reg: Registry<F, C>, lowerName: string, j: int)
    requires 0 <= j < |reg.combinators|
  {
    match StripSuffix(lowerName, ToLower(reg.combinators[j].0))
    case Some(nested) => Registered(reg.functions, nested)
    case None => false
  }

  /** The first combinator, in registration order, whose suffix matches the lower-cased name. */
  function FindSuffix<C>(combinators: seq<(string, C)>, lowerName: string): (r: Option<nat>)
    ensures r.Some? ==> FirstSuffix(combinators, lowerName, r.value)
    ensures r.None? ==> forall j :: 0 <= j < |combinators| ==> !SuffixMatches(combinators, lowerName, j)
  {
    var p := key => EndsWith(lowerName, ToLower(key));
    var r := FindFirst(combinators, p);
    assert forall j :: 0 <= j < |combinators| ==> p(combinators[j].0) == SuffixMatches(combinators, lowerName, j);
    r
  }

  /** Combinator resolution on a miss: commit to the first matching suffix. */
  function ResolveCombinator<F, C>(reg: Registry<F, C>, name: string): (r: Result<Creation<F, C>>)
    ensures r.Ok? ==> r.value.Combined?
    ensures r.Ok? ==>
              exists j :: FirstSuffix(reg.combinators, ToLower(name), j)
                          && r.value.combinator == reg.combinators[j].1
                          && r.value.nestedName + ToLower(reg.combinators[j].0) == ToLower(name)
    ensures r.Ok? ==>
              IsLower(r.value.nestedName)
              && exists k :: 0 <= k < |reg.functions| && EqualsIgnoreCase(reg.functions[k].0, r.value.nestedName)
                             && r.value.nested == reg.functions[k].1
    ensures r.Err? ==>
              && r.error == NotFound(name)
              && forall j :: FirstSuffix(reg.combinators, ToLower(name), j) ==>
                               !RemainderRegistered(reg, ToLower(name), j)
  {
    var lowerName := ToLower(name);
    match FindSuffix(reg.combinators, lowerName)
    case None => Err(NotFound(name))
    case Some(j) =>
      assert forall j' :: FirstSuffix(reg.combinators, lowerName, j') ==> j' == j;
      match StripSuffix(lowerName, ToLower(reg.combinators[j].0))
      case None => Err(NotFound(name))
      case Some(nestedName) =>
        PrefixOfLower(lowerName, nestedName);
        match FindKey(reg.functions, nestedName)
        case None => Err(NotFound(name))
        case Some(k) => Ok(Combined(reg.combinators[j].1, nestedName, reg.functions[k].1))
  }

  /**
    The resolution step of `get`: an exact, case-insensitive match wins;
    otherwise the first combinator whose suffix matches the lower-cased name is
    taken, and the name with that suffix stripped must be registered. Later
    combinators are never tried.
   */
  function Resolve<F, C>(reg: Registry<F, C>, name: string): (r: Result<Creation<F, C>>)
    ensures Registered(reg.functions, name) <==> r.Ok? && r.value.Direct?
    ensures r.Ok? && r.value.Direct? ==>
              exists i :: 0 <= i < |reg.functions| && EqualsIgnoreCase(reg.functions[i].0, name)
                          && r.value.creator == reg.functions[i].1
    ensures r.Ok? && r.value.Combined? ==>
              exists j :: FirstSuffix(reg.combinators, ToLower(name), j)
                          && r.value.combinator == reg.combinators[j].1
                          && r.value.nestedName + ToLower(reg.combinators[j].0) == ToLower(name)
    ensures r.Ok? && r.value.Combined? ==>
              IsLower(r.value.nestedName)
              && exists k :: 0 <= k < |reg.functions| && EqualsIgnoreCase(reg.functions[k].0, r.value.nestedName)
                             && r.value.nested == reg.functions[k].1
    ensures r.Err? ==>
              && r.error == NotFound(name)
              && !Registered(reg.functions, name)
              && forall j :: FirstSuffix(reg.combinators, ToLower(name), j) ==>
                               !RemainderRegistered(reg, ToLower(name), j)
  {
    match FindKey(reg.functions, name)
    case Some(i) => Ok(Direct(reg.functions[i].1))
    case None => ResolveCombinator(reg, name)
  }

  /**
    `AggregateFunctionFactory::get`: resolve, then call the chosen constructor.
    A base constructor receives the name as requested; a combinator receives
    the lower-cased nested name and the nested base constructor.
   */
  function Get<F, C, P, A, R>(reg: Registry<F, C>, name: string, params: P, arguments: A,
                              callBase: (F, string, P, A) -> Result<R>,
                              callCombinator: (C, string, P, A, F) -> Result<R>): (r: Result<R>)
    ensures r.Ok? ==> Check(reg, name)
    ensures !Check(reg, name) ==> r == Err(NotFound(name))
    ensures Resolve(reg, name).Err? ==> r == Err(NotFound(name))
    ensures Resolve(reg, name).Ok? && Resolve(reg, name).value.Direct? ==>
              r == callBase(Resolve(reg, name).value.creator, name, params, arguments)
    ensures Resolve(reg, name).Ok? && Resolve(reg, name).value.Combined? ==>
              var c := Resolve(reg, name).value;
              r == callCombinator(c.combinator, c.nestedName, params, arguments, c.nested)
  {
    ResolveImpliesCheck(reg, name);
    match Resolve(reg, name)
    case Err(e) => Err(e)
    case Ok(Direct(creator)) => callBase(creator, name, params, arguments)
    case Ok(Combined(combinator, nestedName, nested)) => callCombinator(combinator, nestedName, params, arguments, nested)
  }

  /**
    `AggregateFunctionFactory::check`: true on an exact match, or when SOME
    combinator, in any position, strips to a registered name.
   */
  function Check<F, C>(reg: Registry<F, C>, name: string): (r: bool)
    ensures r <==> Registered(reg.functions, name)
                   || exists j :: 0 <= j < |reg.combinators| && RemainderRegistered(reg, ToLower(name), j)
  {
    FindKey(reg.functions, name).Some? || CheckCombinators(reg, ToLower(name), 0)
  }

  function CheckCombinators<F, C>(reg: Registry<F, C>, lowerName: string, from: nat): (r: bool)
    requires from <= |reg.combinators|
    ensures r <==> exists j :: from <= j < |reg.combinators| && RemainderRegistered(reg, lowerName, j)
    decreases |reg.combinators| - from
  {
    if from == |reg.combinators| then false
    else
      match StripSuffix(lowerName, ToLower(reg.combinators[from].0))
      case Some(nestedName) =>
        assert RemainderRegistered(reg, lowerName, from) <==> FindKey(reg.functions, nestedName).Some?;
        FindKey(reg.functions, nestedName).Some? || CheckCombinators(reg, lowerName, from + 1)
      case None => CheckCombinators(reg, lowerName, from + 1)
  }

  /** `registered_names`: the base keys in insertion order; combinator keys are not listed. */
  function RegisteredNames<F, C>(reg: Registry<F, C>): (r: seq<string>)
    ensures |r| == |reg.functions|
    ensures forall i :: 0 <= i < |r| ==> r[i] == reg.functions[i].0
  {
    seq(|reg.functions|, i requires 0 <= i < |reg.functions| => reg.functions[i].0)
  }

  // ---------------------------------------------------------------------------
  // Properties.
  // ---------------------------------------------------------------------------

  /** Whatever `get` resolves, `check` accepts. */
  lemma ResolveImpliesCheck<F, C>(reg: Registry<F, C>, name: string)
    ensures Resolve(reg, name).Ok? ==> Check(reg, name)
  {
    var r := Resolve(reg, name);
    if r.Ok? && r.value.Combined? {
      var lowerName := ToLower(name);
      var j :| FirstSuffix(reg.combinators, lowerName, j)
               && r.value.nestedName + ToLower(reg.combinators[j].0) == lowerName;
      StripAppended(r.value.nestedName, ToLower(reg.combinators[j].0));
      assert RemainderRegistered(reg, lowerName, j);
    }
  }

  /**
    `get` commits to the first matching combinator while `check` tries them
    all, so `check` can accept a name `get` rejects: with base `sum` and the
    combinators `f` then `if`, `sumif` strips to the unregistered `sumi`.
   */
  lemma CheckAcceptsWhatGetRejects()
    ensures var reg := Registry([("sum", 0)], [("f", 0), ("if", 1)]);
            Resolve(reg, "sumif").Err? && Check(reg, "sumif")
  {
    var reg := Registry([("sum", 0)], [("f", 0), ("if", 1)]);
    var lowerName := ToLower("sumif");
    assert lowerName == "sumif";
    assert ToLower("f") == "f";
    assert ToLower("if") == "if";
    assert ToLower("sum") == "sum";
    assert ToLower("sumi") == "sumi";
    assert !Registered(reg.functions, "sumif") by {
      assert !EqualsIgnoreCase(reg.functions[0].0, "sumif");
    }
    assert FirstSuffix(reg.combinators, lowerName, 0) by {
      assert lowerName[4..] == "f";
    }
    assert StripSuffix(lowerName, "f") == Some("sumi") by {
      assert lowerName[..4] == "sumi";
    }
    assert !Registered(reg.functions, "sumi");
    assert StripSuffix(lowerName, "if") == Some("sum") by {
      assert lowerName[3..] == "if";
      assert lowerName[..3] == "sum";
    }
    assert RemainderRegistered(reg, lowerName, 1) by {
      assert EqualsIgnoreCase(reg.functions[0].0, "sum");
    }
  }

  /** The example of a suffix combinator: `sumif` is `sum` wrapped by the `if` combinator. */
  lemma SumIfExample()
    ensures var reg := Registry([("sum", 7)], [("if", 3)]);
            && Resolve(reg, "sumif") == Ok(Combined(3, "sum", 7))
            && Check(reg, "sumif")
  {
    var reg := Registry([("sum", 7)], [("if", 3)]);
    assert ToLower("sumif") == "sumif";
    assert ToLower("if") == "if";
    assert ToLower("sum") == "sum";
    assert "sumif"[3..] == "if" && "sumif"[..3] == "sum";
    assert !Registered(reg.functions, "sumif") by {
      assert !EqualsIgnoreCase(reg.functions[0].0, "sumif");
    }
    assert FirstSuffix(reg.combinators, "sumif", 0);
    ResolveImpliesCheck(reg, "sumif");
  }

  /** An upper-case spelling of a registered name resolves to that function directly. */
  lemma UpperCaseExample()
    ensures var reg := Registry([("sum", 7)], [("if", 3)]);
            Resolve(reg, "SUM") == Ok(Direct(7))
  {
    var reg := Registry([("sum", 7)], [("if", 3)]);
    assert ToLower("sum") == "sum";
    assert ToLower("SUM") == "sum";
    assert EqualsIgnoreCase("sum", "SUM");
  }

  /** A name that is neither registered nor ends in a combinator's name is unknown. */
  lemma UnknownNameExample()
    ensures var reg := Registry([("sum", 7)], [("if", 3)]);
            Resolve(reg, "sumxx") == Err(NotFound("sumxx"))
  {
    var reg := Registry([("sum", 7)], [("if", 3)]);
    assert ToLower("sum") == "sum";
    assert ToLower("if") == "if";
    assert ToLower("sumxx") == "sumxx";
    assert !Registered(reg.functions, "sumxx") by {
      assert !EqualsIgnoreCase(reg.functions[0].0, "sumxx");
    }
    assert !SuffixMatches(reg.combinators, "sumxx", 0) by {
      assert "sumxx"[3..] != "if";
    }
  }

  /** In a registry the program can build, a name matches at most one key, so lookup finds that very entry. */
  lemma FindKeyFindsTheEntry<F, C>(reg: Registry<F, C>, name: string, i: nat)
    requires ValidRegistry(reg)
    requires i < |reg.functions| && EqualsIgnoreCase(reg.functions[i].0, name)
    ensures FindKey(reg.functions, name) == Some(i)
  {
    var k := FindKey(reg.functions, name).value;
    assert EqualsIgnoreCase(reg.functions[k].0, reg.functions[i].0);
  }

  /**
    In a registry the program can build, the listed names are distinct up to
    case, and each resolves directly to the constructor registered under it.
   */
  lemma RegisteredNamesAreTheEntries<F, C>(reg: Registry<F, C>, i: nat)
    requires ValidRegistry(reg) && i < |reg.functions|
    ensures forall j :: 0 <= j < |RegisteredNames(reg)| && j != i ==>
              !EqualsIgnoreCase(RegisteredNames(reg)[j], RegisteredNames(reg)[i])
    ensures Resolve(reg, RegisteredNames(reg)[i]) == Ok(Direct(reg.functions[i].1))
  {
    var names := RegisteredNames(reg);
    FindKeyFindsTheEntry(reg, names[i], i);
    forall j | 0 <= j < |names| && j != i
      ensures !EqualsIgnoreCase(names[j], names[i])
    {
      if j < i {
        assert !EqualsIgnoreCase(reg.functions[j].0, reg.functions[i].0);
      } else {
        assert !EqualsIgnoreCase(reg.functions[i].0, reg.functions[j].0);
      }
    }
  }

  /** Lookup sees only the lower-cased name: names equal up to case resolve alike. */
  lemma {:induction false} CaseInsensitive<F, C>(reg: Registry<F, C>, a: string, b: string)
    requires EqualsIgnoreCase(a, b)
    ensures Resolve(reg, a).Ok? <==> Resolve(reg, b).Ok?
    ensures Resolve(reg, a).Ok? ==> Resolve(reg, a).value == Resolve(reg, b).value
    ensures Check(reg, a) == Check(reg, b)
  {
    FindKeyCaseInsensitive(reg.functions, a, b);
  }

  lemma {:induction false} FindKeyCaseInsensitive<V>(entries: seq<(string, V)>, a: string, b: string)
    requires EqualsIgnoreCase(a, b)
    ensures FindKey(entries, a) == FindKey(entries, b)
    decreases |entries|
  {
    if |entries| > 0 {
      FindKeyCaseInsensitive(entries[1..], a, b);
    }
  }

  /** Every listed name is resolved by an exact match. */
  lemma RegisteredNamesResolve<F, C>(reg: Registry<F, C>, n: string)
    requires n in RegisteredNames(reg)
    ensures Resolve(reg, n).Ok? && Resolve(reg, n).value.Direct?
    ensures Check(reg, n)
  {
    var i :| 0 <= i < |reg.functions| && RegisteredNames(reg)[i] == n;
    assert EqualsIgnoreCase(reg.functions[i].0, n);
  }
}
