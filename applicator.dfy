/**
 * `InitializerApplicator`: an ordered list of (pattern, initializer) pairs,
 * applied to the named parameters of a module. Each parameter goes to the
 * first pair whose pattern is found in its name and to no other; parameters
 * no pattern finds, and patterns that were never the one chosen, are reported.
 *
 * Pattern search is `re.search`; the regular-expression engine is not part of
 * this model, so it is passed in as a predicate on (pattern, name). Applying an
 * initializer to a parameter is recorded on the parameter as the position of
 * the pair that was applied.
 */
module Applicator {
  import opened Checks
  import Config

  type Pattern = string

  /** One configured entry: a pattern and the initializer for the parameters it finds. */
  type Pair = (Pattern, Config.Initializer)

  /** Whether `re.search(pattern, name)` finds a match. */
  type Search = (Pattern, string) -> bool

  // ---------------------------------------------------------------------------
  // What the applicator is meant to do, as functions of its inputs
  // ---------------------------------------------------------------------------

  /** The position of the first pair whose pattern is found in `name`, if any. */
  function FirstMatch(pairs: seq<Pair>, name: string, search: Search): (r: Option<nat>)
    ensures r.Some? ==> r.value < |pairs| && search(pairs[r.value].0, name)
    ensures r.Some? ==> forall i :: 0 <= i < r.value ==> !search(pairs[i].0, name)
    ensures r.None? <==> forall i :: 0 <= i < |pairs| ==> !search(pairs[i].0, name)
  {
    if pairs == [] then None
    else if search(pairs[0].0, name) then Some(0)
    else
      assert forall i :: 0 < i < |pairs| ==> pairs[1..][i - 1] == pairs[i];
      match FirstMatch(pairs[1..], name, search)
      case Some(j) => Some(j + 1)
      case None => None
  }

  /**
   * The inner loop of `__call__`: try the patterns in order and stop at the
   * first one found in `name`; `|pairs|` when none is, where the source's
   * `for ... else` runs.
   */
  method FirstMatchIndex(pairs: seq<Pair>, name: string, search: Search) returns (j: nat)
    ensures j <= |pairs|
    ensures FirstMatch(pairs, name, search) == if j < |pairs| then Some(j) else None
  {
    j := 0;
    while j < |pairs|
      invariant j <= |pairs|
      invariant forall i :: 0 <= i < j ==> !search(pairs[i].0, name)
    {
      if search(pairs[j].0, name) {
        break;
      }
      j := j + 1;
    }
  }

  /** The patterns of all pairs, each once however often it is listed; `PatternsSpec` characterises it. */
  function Patterns(pairs: seq<Pair>): set<Pattern>
  {
    if pairs == [] then {} else {pairs[0].0} + Patterns(pairs[1..])
  }

  /** The names no pattern is found in: the parameters left with their own initialisation. */
  function Uninitialized(pairs: seq<Pair>, names: seq<string>, search: Search): set<string>
  {
    if names == [] then {}
    else
      var last := names[|names| - 1];
      Uninitialized(pairs, names[..|names| - 1], search) +
      (if FirstMatch(pairs, last, search).None? then {last} else {})
  }

  /** The patterns of the pairs chosen as the first match of some name. */
  function ChosenPatterns(pairs: seq<Pair>, names: seq<string>, search: Search): set<Pattern>
  {
    if names == [] then {}
    else
      var last := names[|names| - 1];
      ChosenPatterns(pairs, names[..|names| - 1], search) + PatternChosenFor(pairs, last, search)
  }

  /** The pattern of the pair chosen for one name, if a pair is chosen. */
  function PatternChosenFor(pairs: seq<Pair>, name: string, search: Search): set<Pattern>
  {
    match FirstMatch(pairs, name, search)
    case Some(j) => {pairs[j].0}
    case None => {}
  }

  /**
   * One step of `__call__`'s bookkeeping: after the first `p` names, handling
   * name `p`, whose first match is at `j` (`|pairs|` for none), discards that
   * pattern or records the name as uninitialised.
   */
  lemma OneMoreName(pairs: seq<Pair>, names: seq<string>, search: Search, p: nat, j: nat,
                    unused: set<Pattern>, uninitialized: set<string>)
    requires p < |names| && j <= |pairs|
    requires FirstMatch(pairs, names[p], search) == if j < |pairs| then Some(j) else None
    requires unused == Patterns(pairs) - ChosenPatterns(pairs, names[..p], search)
    requires uninitialized == Uninitialized(pairs, names[..p], search)
    ensures (if j < |pairs| then unused - {pairs[j].0} else unused) ==
            Patterns(pairs) - ChosenPatterns(pairs, names[..p + 1], search)
    ensures (if j < |pairs| then uninitialized else uninitialized + {names[p]}) ==
            Uninitialized(pairs, names[..p + 1], search)
  {
    var longer := names[..p + 1];
    assert longer[..p] == names[..p] && longer[p] == names[p];
    assert ChosenPatterns(pairs, longer, search) ==
           ChosenPatterns(pairs, names[..p], search) + PatternChosenFor(pairs, names[p], search);
    assert PatternChosenFor(pairs, names[p], search) == if j < |pairs| then {pairs[j].0} else {};
  }

  /**
   * The patterns that were never the chosen match: the ones reported as
   * unused. They are configured patterns, and with no parameters every
   * configured pattern is; `UnusedIffNeverChosen` says which ones in general.
   */
  function Unused(pairs: seq<Pair>, names: seq<string>, search: Search): (r: set<Pattern>)
    ensures r <= Patterns(pairs)
    ensures names == [] ==> r == Patterns(pairs)
  {
    Patterns(pairs) - ChosenPatterns(pairs, names, search)
  }

  /** What applying leaves on a parameter: the first matching pair, once, or nothing. */
  function Applied(choice: Option<nat>): seq<nat>
  {
    match choice
    case Some(j) => [j]
    case None => []
  }

  // ---------------------------------------------------------------------------
  // The module's parameters and the applicator
  // ---------------------------------------------------------------------------

  /**
   * The named parameters of a module, as `named_parameters()` yields them, and
   * for each one the positions of the pairs whose initializer has been
   * applied to it, in order.
   */
  class Module {
    const names: seq<string>
    const applied: array<seq<nat>>

    ghost predicate Valid()
    {
      applied.Length == |names|
    }

    constructor (names: seq<string>)
      ensures Valid() && this.names == names && fresh(applied)
      ensures forall p :: 0 <= p < applied.Length ==> applied[p] == []
    {
      this.names := names;
      applied := new seq<nat>[|names|](_ => []);
    }

    /** `initializer(parameter)`: parameter `p` receives the initializer of pair `j`; no other changes. */
    method Initialize(p: nat, j: nat)
      requires Valid() && p < |names|
      modifies applied
      ensures applied[p] == old(applied[p]) + [j]
      ensures forall q :: 0 <= q < applied.Length && q != p ==> applied[q] == old(applied[q])
    {
      applied[p] := applied[p] + [j];
    }
  }

  class InitializerApplicator {
    const initializers: seq<Pair>

    /** No list, or an empty one, gives an applicator that initialises nothing. */
    constructor (initializers: Option<seq<Pair>>)
      ensures this.initializers == if initializers.Some? then initializers.value else []
    {
      this.initializers := if initializers.Some? then initializers.value else [];
    }

    /**
     * `from_params`: build every configured initializer, keeping the order of
     * the entries, and make an applicator of them; fail as the first entry that
     * cannot be built fails.
     */
    static method FromParams(params: seq<(Pattern, Config.InitializerParams)>) returns (r: Result<InitializerApplicator>)
      ensures r.Ok? <==> Config.ApplicatorFromParams(params).Ok?
      ensures r.Ok? ==> fresh(r.value) && r.value.initializers == Config.ApplicatorFromParams(params).value
      ensures r.Err? ==> r.error == Config.ApplicatorFromParams(params).error
    {
      match Config.ApplicatorFromParams(params)
      case Ok(pairs) =>
        var applicator := new InitializerApplicator(Some(pairs));
        r := Ok(applicator);
      case Err(e) =>
        r := Err(e);
    }

    /**
     * `__call__`: hand each parameter to the initializer of the first pair
     * whose pattern is found in its name, and stop looking there. Returns the
     * unused patterns and the uninitialised names, which the source logs.
     */
    method Apply(m: Module, search: Search) returns (unused: set<Pattern>, uninitialized: set<string>)
      requires m.Valid()
      modifies m.applied
      ensures forall p :: 0 <= p < |m.names| ==>
                m.applied[p] == old(m.applied[p]) + Applied(FirstMatch(initializers, m.names[p], search))
      ensures unused == Unused(initializers, m.names, search)
      ensures uninitialized == Uninitialized(initializers, m.names, search)
    {
      var pairs := initializers;
      var names := m.names;
      unused := Patterns(pairs);
      uninitialized := {};
      for p := 0 to |names|
        invariant forall q :: 0 <= q < p ==>
                    m.applied[q] == old(m.applied[q]) + Applied(FirstMatch(pairs, names[q], search))
        invariant forall q :: p <= q < |names| ==> m.applied[q] == old(m.applied[q])
        invariant unused == Patterns(pairs) - ChosenPatterns(pairs, names[..p], search)
        invariant uninitialized == Uninitialized(pairs, names[..p], search)
      {
        var name := names[p];
        var j := FirstMatchIndex(pairs, name, search);
        OneMoreName(pairs, names, search, p, j, unused, uninitialized);
        if j < |pairs| {
          m.Initialize(p, j);
          unused := unused - {pairs[j].0};
        } else {
          uninitialized := uninitialized + {name};
        }
      }
      assert names[..|names|] == names;
    }
  }

  // ---------------------------------------------------------------------------
  // Lemmas
  // ---------------------------------------------------------------------------

  /**
   * The configured patterns, as a set: every listed pattern and nothing else,
   * a pattern listed twice counted once.
   */
  lemma {:induction false} PatternsSpec(pairs: seq<Pair>)
    ensures forall pair :: pair in pairs ==> pair.0 in Patterns(pairs)
    ensures forall q :: q in Patterns(pairs) ==> exists pair :: pair in pairs && pair.0 == q
    ensures |Patterns(pairs)| <= |pairs|
  {
    if pairs != [] {
      PatternsSpec(pairs[1..]);
      assert forall pair :: pair in pairs ==> pair == pairs[0] || pair in pairs[1..];
      assert forall pair :: pair in pairs[1..] ==> pair in pairs;
    }
  }

  /** First match wins: a later pair is never applied to a name an earlier pair also finds. */
  lemma FirstMatchWins(pairs: seq<Pair>, name: string, search: Search, i: nat, j: nat)
    requires i < j < |pairs|
    requires search(pairs[i].0, name) && search(pairs[j].0, name)
    ensures FirstMatch(pairs, name, search) != Some(j)
    ensures FirstMatch(pairs, name, search).Some? && FirstMatch(pairs, name, search).value <= i
  {
  }

  /**
   * One call of `__call__` applies at most one initializer to a parameter, and
   * exactly one if some pattern finds it: `Apply` appends exactly
   * `Applied(FirstMatch(...))` to each parameter's record, so a freshly built
   * `Module` ends a call with at most one entry per parameter.
   */
  lemma AtMostOnce(pairs: seq<Pair>, name: string, search: Search)
    ensures |Applied(FirstMatch(pairs, name, search))| <= 1
    ensures |Applied(FirstMatch(pairs, name, search))| == 1 <==>
              exists i :: 0 <= i < |pairs| && search(pairs[i].0, name)
  {
  }

  /** The uninitialised names are exactly the names no pattern is found in. */
  lemma {:induction false} UninitializedSpec(pairs: seq<Pair>, names: seq<string>, search: Search)
    ensures forall n :: n in Uninitialized(pairs, names, search) <==>
              n in names && forall i :: 0 <= i < |pairs| ==> !search(pairs[i].0, n)
  {
    if names != [] {
      var last := names[|names| - 1];
      assert names == names[..|names| - 1] + [last];
      UninitializedSpec(pairs, names[..|names| - 1], search);
    }
  }

  /** The chosen patterns are exactly the patterns of the pairs some name's first match picks. */
  lemma {:induction false} ChosenPatternsSpec(pairs: seq<Pair>, names: seq<string>, search: Search)
    ensures forall q :: q in ChosenPatterns(pairs, names, search) <==>
              exists n :: n in names && FirstMatch(pairs, n, search).Some? &&
                          pairs[FirstMatch(pairs, n, search).value].0 == q
  {
    if names != [] {
      var last := names[|names| - 1];
      var prefix := names[..|names| - 1];
      assert names == prefix + [last];
      ChosenPatternsSpec(pairs, prefix, search);
      forall q | q in ChosenPatterns(pairs, names, search)
        ensures exists n :: n in names && FirstMatch(pairs, n, search).Some? &&
                            pairs[FirstMatch(pairs, n, search).value].0 == q
      {
        if q in ChosenPatterns(pairs, prefix, search) {
          var n :| n in prefix && FirstMatch(pairs, n, search).Some? &&
                   pairs[FirstMatch(pairs, n, search).value].0 == q;
          assert n in names;
        } else {
          assert last in names;
        }
      }
      forall q, n | n in names && FirstMatch(pairs, n, search).Some? &&
                    pairs[FirstMatch(pairs, n, search).value].0 == q
        ensures q in ChosenPatterns(pairs, names, search)
      {
        if n != last {
          assert n in prefix;
        }
      }
    }
  }

  /**
   * A pattern that occurs once in the list and only finds names an earlier
   * pattern finds too is shadowed: it is never chosen and stays unused.
   */
  lemma ShadowedPatternUnused(pairs: seq<Pair>, names: seq<string>, search: Search, i: nat, j: nat)
    requires i < j < |pairs|
    requires forall k :: 0 <= k < |pairs| && k != j ==> pairs[k].0 != pairs[j].0
    requires forall n :: n in names && search(pairs[j].0, n) ==> search(pairs[i].0, n)
    ensures pairs[j].0 in Unused(pairs, names, search)
  {
    PatternsSpec(pairs);
    ChosenPatternsSpec(pairs, names, search);
  }

  /** A pattern is unused exactly when it is the pattern of no name's first match. */
  lemma UnusedIffNeverChosen(pairs: seq<Pair>, names: seq<string>, search: Search, q: Pattern)
    requires q in Patterns(pairs)
    ensures q in Unused(pairs, names, search) <==>
              forall n :: n in names && FirstMatch(pairs, n, search).Some? ==>
                pairs[FirstMatch(pairs, n, search).value].0 != q
  {
    ChosenPatternsSpec(pairs, names, search);
  }

  /** With no initializers, nothing is initialised, every name is reported, no pattern is unused. */
  lemma NoInitializers(names: seq<string>, search: Search)
    ensures forall n :: FirstMatch([], n, search) == None
    ensures Uninitialized([], names, search) == set n | n in names
    ensures Unused([], names, search) == {}
  {
    UninitializedSpec([], names, search);
  }
}
