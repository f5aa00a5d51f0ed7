/**
 Queries over the service-specification catalogue: lookup by short name and
 by class identifier, the `extends` compatibility check, the storage-type to
 number-format table, the integer-type recogniser, the register predicate and
 fixed-point scaling, as the TypeScript module `src/dom/spec.ts` defines
 them. The catalogue, which that module loads once from `spec.json`, is a
 parameter here.
 */
module SpecQueries {
  import opened Wrappers

  /** One catalogue entry: only the fields the queries read. */
  datatype ServiceSpec = ServiceSpec(shortId: string, classIdentifier: int, extendsList: seq<string>)

  type Catalogue = seq<ServiceSpec>

  /** A packet (register, event or command) of a service; only its kind is read. */
  datatype PacketInfo = PacketInfo(kind: string, identifier: int)

  /** A field of a packet. `shift` is absent for plain integers. */
  datatype PacketMember = PacketMember(name: string, storage: int, shift: Option<int>)

  // ---------------------------------------------------------------------------
  // Linear search (`Array.prototype.find`)
  // ---------------------------------------------------------------------------

  /** Index of the first element satisfying `p`, or None if there is none. */
  function IndexWhere<T>(s: seq<T>, p: T -> bool): (r: Option<nat>)
    ensures r.Some? ==> r.value < |s| && p(s[r.value])
    ensures r.Some? ==> forall j | 0 <= j < r.value :: !p(s[j])
    ensures r.None? ==> forall j | 0 <= j < |s| :: !p(s[j])
  {
    if |s| == 0 then None
    else if p(s[0]) then Some(0)
    else match IndexWhere(s[1..], p)
      case None => None
      case Some(k) => Some(k + 1)
  }

  /** `i` is the first catalogue position whose short name is `name`. */
  ghost predicate FirstNamed(cat: Catalogue, i: int, name: string) {
    && 0 <= i < |cat|
    && cat[i].shortId == name
    && forall j | 0 <= j < i :: cat[j].shortId != name
  }

  /** `i` is the first catalogue position whose class identifier is `c`. */
  ghost predicate FirstOfClass(cat: Catalogue, i: int, c: int) {
    && 0 <= i < |cat|
    && cat[i].classIdentifier == c
    && forall j | 0 <= j < i :: cat[j].classIdentifier != c
  }

  /**
   Lookup by short name. The name is compared exactly: `serviceSpecificationFromName` computes a
   lower-cased, trimmed copy of it but never uses that copy.
   */
  function FromName(cat: Catalogue, name: string): (r: Option<ServiceSpec>)
    ensures r.Some? ==> exists i :: FirstNamed(cat, i, name) && cat[i] == r.value
    ensures r.None? <==> forall j | 0 <= j < |cat| :: cat[j].shortId != name
  {
    match IndexWhere(cat, (s: ServiceSpec) => s.shortId == name)
    case None => None
    case Some(i) => assert FirstNamed(cat, i, name); Some(cat[i])
  }

  /** Lookup by class identifier; `None` models a null or undefined argument. */
  function FromClassIdentifier(cat: Catalogue, classIdentifier: Option<int>): (r: Option<ServiceSpec>)
    ensures classIdentifier.None? ==> r.None?
    ensures r.Some? ==> exists i :: FirstOfClass(cat, i, classIdentifier.value) && cat[i] == r.value
    ensures classIdentifier.Some? ==>
              (r.None? <==> forall j | 0 <= j < |cat| :: cat[j].classIdentifier != classIdentifier.value)
  {
    match classIdentifier
    case None => None
    case Some(c) =>
      match IndexWhere(cat, (s: ServiceSpec) => s.classIdentifier == c)
      case None => None
      case Some(i) => assert FirstOfClass(cat, i, c); Some(cat[i])
  }

  /** The name lookup does no case folding or trimming. */
  lemma NameLookupIsExact()
    ensures FromName([ServiceSpec("button", 0x1473a263, [])], "Button").None?
    ensures FromName([ServiceSpec("button", 0x1473a263, [])], " button").None?
    ensures FromName([ServiceSpec("button", 0x1473a263, [])], "button").Some?
  {
    var cat := [ServiceSpec("button", 0x1473a263, [])];
    assert cat[0].shortId != "Button" by { assert cat[0].shortId[0] != "Button"[0]; }
    assert cat[0].shortId != " button" by { assert |cat[0].shortId| != |" button"|; }
  }

  // ---------------------------------------------------------------------------
  // Compatibility through `extends`
  // ---------------------------------------------------------------------------

  /** The name `name` resolves to a catalogue entry of class `d`. */
  predicate ResolvesTo(cat: Catalogue, name: string, d: int) {
    FromName(cat, name).Some? && FromName(cat, name).value.classIdentifier == d
  }

  /**
   One step of the `extends` relation: the spec found for class `c` lists a
   name that resolves to a spec of class `d`. Unresolved names add no step.
   */
  predicate DirectlyExtends(cat: Catalogue, c: int, d: int) {
    match FromClassIdentifier(cat, Some(c))
    case None => false
    case Some(spec) => exists j | 0 <= j < |spec.extendsList| :: ResolvesTo(cat, spec.extendsList[j], d)
  }

  /**
   `rank` witnesses that the `extends` graph is acyclic: the class of every
   entry that class lookup can return (the first one of its class) has a
   rank, and every name that entry extends that resolves leads to a class of
   strictly smaller rank. A later entry repeating a class identifier is never
   read, so it is not constrained. The TypeScript `isInstanceOf` has no
   cycle guard; a rank is what makes its recursion end.
   */
  ghost predicate Ranked(cat: Catalogue, rank: map<int, nat>) {
    forall i | 0 <= i < |cat| && FirstOfClass(cat, i, cat[i].classIdentifier) ::
      && cat[i].classIdentifier in rank
      && forall j | 0 <= j < |cat[i].extendsList| ::
           match FromName(cat, cat[i].extendsList[j])
           case None => true
           case Some(d) => d.classIdentifier in rank && rank[d.classIdentifier] < rank[cat[i].classIdentifier]
  }

  function RankOf(rank: map<int, nat>, c: int): nat {
    if c in rank then rank[c] else 0
  }

  /**
   Is class `c` compatible with `required`? True on equality; otherwise true
   iff some name in the `extends` list of `c`'s spec resolves to a spec whose
   class is compatible with `required`.
   */
  function IsInstanceOf(cat: Catalogue, ghost rank: map<int, nat>, c: int, required: int): (r: bool)
    requires Ranked(cat, rank)
    ensures c == required ==> r
    ensures r && c != required ==> c in rank && required in rank && rank[required] < rank[c]
    decreases RankOf(rank, c)
  {
    if c == required then true
    else match FromClassIdentifier(cat, Some(c))
      case None => false
      case Some(spec) =>
        exists j | 0 <= j < |spec.extendsList| ::
          match FromName(cat, spec.extendsList[j])
          case None => false
          case Some(d) =>
            RankStep(cat, rank, c, spec, j);
            IsInstanceOf(cat, rank, d.classIdentifier, required)
  }

  /** The rank decreases along each resolved `extends` name. */
  lemma RankStep(cat: Catalogue, rank: map<int, nat>, c: int, spec: ServiceSpec, j: int)
    requires Ranked(cat, rank)
    requires FromClassIdentifier(cat, Some(c)) == Some(spec)
    requires 0 <= j < |spec.extendsList| && FromName(cat, spec.extendsList[j]).Some?
    ensures c in rank
    ensures FromName(cat, spec.extendsList[j]).value.classIdentifier in rank
    ensures rank[FromName(cat, spec.extendsList[j]).value.classIdentifier] < rank[c]
  {
    var i :| FirstOfClass(cat, i, c) && cat[i] == spec;
    assert cat[i].extendsList[j] == spec.extendsList[j];
  }

  /** For distinct classes, compatibility is exactly one `extends` step followed by compatibility. */
  lemma InstanceOfUnfold(cat: Catalogue, rank: map<int, nat>, c: int, required: int)
    requires Ranked(cat, rank)
    requires c != required
    ensures IsInstanceOf(cat, rank, c, required) <==>
              exists d :: DirectlyExtends(cat, c, d) && IsInstanceOf(cat, rank, d, required)
  {
    match FromClassIdentifier(cat, Some(c))
    case None =>
    case Some(spec) =>
      if IsInstanceOf(cat, rank, c, required) {
        var j :| 0 <= j < |spec.extendsList| && FromName(cat, spec.extendsList[j]).Some?
          && IsInstanceOf(cat, rank, FromName(cat, spec.extendsList[j]).value.classIdentifier, required);
        var d := FromName(cat, spec.extendsList[j]).value.classIdentifier;
        assert ResolvesTo(cat, spec.extendsList[j], d);
        assert DirectlyExtends(cat, c, d);
      }
      if exists d :: DirectlyExtends(cat, c, d) && IsInstanceOf(cat, rank, d, required) {
        var d :| DirectlyExtends(cat, c, d) && IsInstanceOf(cat, rank, d, required);
        var j :| 0 <= j < |spec.extendsList| && ResolvesTo(cat, spec.extendsList[j], d);
        assert FromName(cat, spec.extendsList[j]).Some?;
      }
  }

  /** `path` walks the `extends` relation from `c` to `required`. */
  ghost predicate IsChain(cat: Catalogue, path: seq<int>, c: int, required: int) {
    && |path| >= 1
    && path[0] == c
    && path[|path| - 1] == required
    && forall k | 0 <= k < |path| - 1 :: DirectlyExtends(cat, path[k], path[k + 1])
  }

  /** Compatibility is reachability: `c` is an instance of `required` iff an `extends` chain joins them. */
  lemma InstanceOfIffChain(cat: Catalogue, rank: map<int, nat>, c: int, required: int)
    requires Ranked(cat, rank)
    ensures IsInstanceOf(cat, rank, c, required) <==> exists path :: IsChain(cat, path, c, required)
  {
    if IsInstanceOf(cat, rank, c, required) {
      InstanceImpliesChain(cat, rank, c, required);
    }
    if exists path :: IsChain(cat, path, c, required) {
      var path :| IsChain(cat, path, c, required);
      ChainImpliesInstance(cat, rank, path, c, required);
    }
  }

  /** Prefixing a chain from `d` with a step `c` to `d` gives a chain from `c`. */
  lemma ChainCons(cat: Catalogue, c: int, d: int, p: seq<int>, required: int)
    requires DirectlyExtends(cat, c, d)
    requires IsChain(cat, p, d, required)
    ensures IsChain(cat, [c] + p, c, required)
  {
    var path := [c] + p;
    forall k | 0 <= k < |path| - 1
      ensures DirectlyExtends(cat, path[k], path[k + 1])
    {
      if k > 0 {
        assert path[k] == p[k - 1] && path[k + 1] == p[k];
      }
    }
  }

  lemma {:induction false} InstanceImpliesChain(cat: Catalogue, rank: map<int, nat>, c: int, required: int)
    requires Ranked(cat, rank)
    requires IsInstanceOf(cat, rank, c, required)
    ensures exists path :: IsChain(cat, path, c, required)
    decreases RankOf(rank, c)
  {
    if c == required {
      assert IsChain(cat, [c], c, required);
    } else {
      InstanceOfUnfold(cat, rank, c, required);
      var d :| DirectlyExtends(cat, c, d) && IsInstanceOf(cat, rank, d, required);
      ExtendsLowersRank(cat, rank, c, d);
      InstanceImpliesChain(cat, rank, d, required);
      var p :| IsChain(cat, p, d, required);
      ChainCons(cat, c, d, p, required);
    }
  }

  /** Each `extends` step lowers the rank. */
  lemma ExtendsLowersRank(cat: Catalogue, rank: map<int, nat>, c: int, d: int)
    requires Ranked(cat, rank)
    requires DirectlyExtends(cat, c, d)
    ensures c in rank && d in rank && rank[d] < rank[c]
  {
    var spec := FromClassIdentifier(cat, Some(c)).value;
    var j :| 0 <= j < |spec.extendsList| && ResolvesTo(cat, spec.extendsList[j], d);
    RankStep(cat, rank, c, spec, j);
  }

  lemma {:induction false} ChainImpliesInstance(cat: Catalogue, rank: map<int, nat>, path: seq<int>, c: int, required: int)
    requires Ranked(cat, rank)
    requires IsChain(cat, path, c, required)
    ensures IsInstanceOf(cat, rank, c, required)
    decreases |path|
  {
    if |path| > 1 && c != required {
      var d := path[1];
      assert DirectlyExtends(cat, path[0], path[1]);
      assert IsChain(cat, path[1..], d, required) by {
        forall k | 0 <= k < |path[1..]| - 1
          ensures DirectlyExtends(cat, path[1..][k], path[1..][k + 1])
        {
          assert path[1..][k] == path[k + 1] && path[1..][k + 1] == path[k + 2];
        }
      }
      ChainImpliesInstance(cat, rank, path[1..], d, required);
      InstanceOfUnfold(cat, rank, c, required);
    }
  }

  /** Compatibility is transitive. */
  lemma {:induction false} InstanceOfTransitive(cat: Catalogue, rank: map<int, nat>, a: int, b: int, c: int)
    requires Ranked(cat, rank)
    requires IsInstanceOf(cat, rank, a, b) && IsInstanceOf(cat, rank, b, c)
    ensures IsInstanceOf(cat, rank, a, c)
  {
    InstanceImpliesChain(cat, rank, a, b);
    var p :| IsChain(cat, p, a, b);
    InstanceImpliesChain(cat, rank, b, c);
    var q :| IsChain(cat, q, b, c);
    ChainAppend(cat, p, q, a, b, c);
    ChainImpliesInstance(cat, rank, p + q[1..], a, c);
  }

  /** Two chains that meet at `b` join into one chain. */
  lemma ChainAppend(cat: Catalogue, p: seq<int>, q: seq<int>, a: int, b: int, c: int)
    requires IsChain(cat, p, a, b) && IsChain(cat, q, b, c)
    ensures IsChain(cat, p + q[1..], a, c)
  {
    var path := p + q[1..];
    forall k | 0 <= k < |path| - 1
      ensures DirectlyExtends(cat, path[k], path[k + 1])
    {
      if k < |p| - 1 {
        assert path[k] == p[k] && path[k + 1] == p[k + 1];
      } else {
        var m := k - (|p| - 1);
        assert path[k] == q[m] && path[k + 1] == q[m + 1];
      }
    }
  }

  /** On an acyclic catalogue two distinct classes are never compatible both ways. */
  lemma InstanceOfAntisymmetric(cat: Catalogue, rank: map<int, nat>, a: int, b: int)
    requires Ranked(cat, rank)
    requires IsInstanceOf(cat, rank, a, b) && IsInstanceOf(cat, rank, b, a)
    ensures a == b
  {
  }

  /** If the spec of class `b` extends a name resolving to class `a`, then `b` is an instance of `a`. */
  lemma ExtendsImpliesInstance(cat: Catalogue, rank: map<int, nat>, b: int, a: int)
    requires Ranked(cat, rank)
    requires DirectlyExtends(cat, b, a)
    ensures IsInstanceOf(cat, rank, b, a)
    ensures a != b ==> !IsInstanceOf(cat, rank, a, b)
  {
    ExtendsLowersRank(cat, rank, b, a);
    assert IsInstanceOf(cat, rank, a, a);
    InstanceOfUnfold(cat, rank, b, a);
  }

  // ---------------------------------------------------------------------------
  // Compatibility on catalogues that may be cyclic
  // ---------------------------------------------------------------------------

  /**
   The compatibility check exactly as written, on any catalogue, with the
   recursion depth bounded by `fuel`. `None` means the check is still
   recursing when the depth runs out; on a cyclic catalogue that is the stack
   overflow of the TypeScript `isInstanceOf`. The `extends` names are tried
   left to right and the first compatible one ends the search, as
   `Array.prototype.some` does (`SomeExtendsDecides`).
   */
  function InstanceOfWithin(cat: Catalogue, fuel: nat, c: int, required: int): (r: Option<bool>)
    ensures c == required ==> r == Some(true)
    ensures c != required && FromClassIdentifier(cat, Some(c)).None? && fuel > 0 ==> r == Some(false)
    decreases fuel, 0
  {
    if c == required then Some(true)
    else if fuel == 0 then None
    else match FromClassIdentifier(cat, Some(c))
      case None => Some(false)
      case Some(spec) => SomeExtends(cat, fuel - 1, spec.extendsList, 0, required)
  }

  /** The `some` over the `extends` names from position `from` on. */
  function SomeExtends(cat: Catalogue, fuel: nat, names: seq<string>, from: nat, required: int): (r: Option<bool>)
    requires from <= |names|
    ensures from == |names| ==> r == Some(false)
    decreases fuel, 1, |names| - from
  {
    if from == |names| then Some(false)
    else match FromName(cat, names[from])
      case None => SomeExtends(cat, fuel, names, from + 1, required)
      case Some(d) =>
        match InstanceOfWithin(cat, fuel, d.classIdentifier, required)
        case None => None
        case Some(true) => Some(true)
        case Some(false) => SomeExtends(cat, fuel, names, from + 1, required)
  }

  /** Within depth `fuel`, the name `name` is skipped: it does not resolve, or its class is not compatible. */
  ghost predicate NameMisses(cat: Catalogue, fuel: nat, name: string, required: int) {
    match FromName(cat, name)
    case None => true
    case Some(d) => InstanceOfWithin(cat, fuel, d.classIdentifier, required) == Some(false)
  }

  /** Within depth `fuel`, the name `name` resolves to a class compatible with `required`. */
  ghost predicate NameHits(cat: Catalogue, fuel: nat, name: string, required: int) {
    FromName(cat, name).Some? && InstanceOfWithin(cat, fuel, FromName(cat, name).value.classIdentifier, required) == Some(true)
  }

  /**
   The position of the first name from `from` on that is not skipped, or
   `|names|` when every name is skipped.
   */
  ghost function FirstDecidingName(cat: Catalogue, fuel: nat, names: seq<string>, from: nat, required: int): (j: nat)
    requires from <= |names|
    ensures from <= j <= |names|
    ensures forall k | from <= k < j :: NameMisses(cat, fuel, names[k], required)
    ensures j < |names| ==> !NameMisses(cat, fuel, names[j], required)
    decreases |names| - from
  {
    if from == |names| || !NameMisses(cat, fuel, names[from], required) then from
    else FirstDecidingName(cat, fuel, names, from + 1, required)
  }

  /** One step of the `some`: a skipped name passes on to the next, any other name decides. */
  lemma SomeExtendsStep(cat: Catalogue, fuel: nat, names: seq<string>, from: nat, required: int)
    requires from < |names|
    ensures NameMisses(cat, fuel, names[from], required) ==>
              SomeExtends(cat, fuel, names, from, required) == SomeExtends(cat, fuel, names, from + 1, required)
    ensures NameHits(cat, fuel, names[from], required) ==> SomeExtends(cat, fuel, names, from, required) == Some(true)
    ensures !NameHits(cat, fuel, names[from], required) && !NameMisses(cat, fuel, names[from], required) ==>
              SomeExtends(cat, fuel, names, from, required) == None
  {
  }

  /**
   The `some` is decided by the first name that is not skipped: it answers
   `true` if that name is compatible, gives no answer if that name's check
   gives none, and answers `false` if every name is skipped. Names after the
   deciding one are never consulted.
   */
  lemma {:induction false} SomeExtendsDecides(cat: Catalogue, fuel: nat, names: seq<string>, from: nat, required: int)
    requires from <= |names|
    ensures var j := FirstDecidingName(cat, fuel, names, from, required);
      SomeExtends(cat, fuel, names, from, required) ==
        if j == |names| then Some(false)
        else if NameHits(cat, fuel, names[j], required) then Some(true)
        else None
    decreases |names| - from
  {
    if from < |names| {
      SomeExtendsStep(cat, fuel, names, from, required);
      if NameMisses(cat, fuel, names[from], required) {
        SomeExtendsDecides(cat, fuel, names, from + 1, required);
      }
    }
  }

  /**
   `SomeExtends` answers `true` exactly when some name is compatible and every
   name before it is skipped, and `false` exactly when every name is skipped.
   */
  lemma SomeExtendsFirstHit(cat: Catalogue, fuel: nat, names: seq<string>, from: nat, required: int)
    requires from <= |names|
    ensures SomeExtends(cat, fuel, names, from, required) == Some(true) <==>
              exists j | from <= j < |names| ::
                NameHits(cat, fuel, names[j], required) && forall k | from <= k < j :: NameMisses(cat, fuel, names[k], required)
    ensures SomeExtends(cat, fuel, names, from, required) == Some(false) <==>
              forall k | from <= k < |names| :: NameMisses(cat, fuel, names[k], required)
  {
    SomeExtendsDecides(cat, fuel, names, from, required);
    var d := FirstDecidingName(cat, fuel, names, from, required);
    if d < |names| && NameHits(cat, fuel, names[d], required) {
      assert NameHits(cat, fuel, names[d], required) && forall k | from <= k < d :: NameMisses(cat, fuel, names[k], required);
    }
    if exists j | from <= j < |names| ::
         NameHits(cat, fuel, names[j], required) && forall k | from <= k < j :: NameMisses(cat, fuel, names[k], required)
    {
      var j :| from <= j < |names| && NameHits(cat, fuel, names[j], required) && forall k | from <= k < j :: NameMisses(cat, fuel, names[k], required);
      assert !NameMisses(cat, fuel, names[j], required);
      assert d == j;
    }
    if d < |names| {
      assert !NameMisses(cat, fuel, names[d], required);
    }
  }

  /** The `extends` name `name` resolves to a class compatible with `required`. */
  ghost predicate StepCompatible(cat: Catalogue, rank: map<int, nat>, name: string, required: int)
    requires Ranked(cat, rank)
  {
    match FromName(cat, name)
    case None => false
    case Some(d) => IsInstanceOf(cat, rank, d.classIdentifier, required)
  }

  /** On an acyclic catalogue, a depth above the rank always suffices and the answer is `IsInstanceOf`. */
  lemma {:induction false} WithinAgreesWithRanked(cat: Catalogue, rank: map<int, nat>, fuel: nat, c: int, required: int)
    requires Ranked(cat, rank)
    requires fuel > RankOf(rank, c)
    ensures InstanceOfWithin(cat, fuel, c, required) == Some(IsInstanceOf(cat, rank, c, required))
    decreases fuel, 0
  {
    if c != required {
      match FromClassIdentifier(cat, Some(c))
      case None =>
      case Some(spec) =>
        var i :| FirstOfClass(cat, i, c) && cat[i] == spec;
        SomeExtendsAgrees(cat, rank, fuel - 1, c, spec, 0, required);
        assert IsInstanceOf(cat, rank, c, required) <==>
               exists j | 0 <= j < |spec.extendsList| :: StepCompatible(cat, rank, spec.extendsList[j], required);
    }
  }

  lemma {:induction false} SomeExtendsAgrees(cat: Catalogue, rank: map<int, nat>, fuel: nat, c: int, spec: ServiceSpec, from: nat, required: int)
    requires Ranked(cat, rank)
    requires FromClassIdentifier(cat, Some(c)) == Some(spec)
    requires from <= |spec.extendsList|
    requires c in rank && fuel >= rank[c]
    ensures SomeExtends(cat, fuel, spec.extendsList, from, required)
            == Some(exists j | from <= j < |spec.extendsList| :: StepCompatible(cat, rank, spec.extendsList[j], required))
    decreases fuel, 1, |spec.extendsList| - from
  {
    var names := spec.extendsList;
    if from < |names| {
      SomeExtendsAgrees(cat, rank, fuel, c, spec, from + 1, required);
      ExistsFromSplit(cat, rank, names, from, required);
      match FromName(cat, names[from])
      case None =>
        assert !StepCompatible(cat, rank, names[from], required);
      case Some(d) =>
        RankStep(cat, rank, c, spec, from);
        WithinAgreesWithRanked(cat, rank, fuel, d.classIdentifier, required);
    }
  }

  /** Some name from position `from` on is compatible iff the one at `from` is or one after it is. */
  lemma ExistsFromSplit(cat: Catalogue, rank: map<int, nat>, names: seq<string>, from: nat, required: int)
    requires Ranked(cat, rank)
    requires from < |names|
    ensures (exists j | from <= j < |names| :: StepCompatible(cat, rank, names[j], required))
            <==> (StepCompatible(cat, rank, names[from], required)
                  || exists j | from + 1 <= j < |names| :: StepCompatible(cat, rank, names[j], required))
  {
    if exists j | from <= j < |names| :: StepCompatible(cat, rank, names[j], required) {
      var j :| from <= j < |names| && StepCompatible(cat, rank, names[j], required);
      if j != from {
        assert from + 1 <= j;
      }
    }
  }

  /** A catalogue whose only spec extends itself. */
  const SelfExtending: Catalogue := [ServiceSpec("loop", 1, ["loop"])]

  /** No rank exists for the self-extending catalogue: it lies outside `IsInstanceOf`'s precondition. */
  lemma SelfExtendingIsUnranked(rank: map<int, nat>)
    ensures !Ranked(SelfExtending, rank)
  {
    LoopResolvesToItself();
  }

  lemma LoopResolvesToItself()
    ensures FromName(SelfExtending, SelfExtending[0].extendsList[0]) == Some(SelfExtending[0])
    ensures FromClassIdentifier(SelfExtending, Some(1)) == Some(SelfExtending[0])
  {
    assert FromName(SelfExtending, "loop") == Some(SelfExtending[0]);
  }

  /**
   As written, asking whether the self-extending class is compatible with any
   other class never produces an answer, however deep the recursion may go.
   */
  lemma {:induction false} SelfExtendingNeverAnswers(fuel: nat)
    ensures InstanceOfWithin(SelfExtending, fuel, 1, 2) == None
    decreases fuel
  {
    if fuel > 0 {
      SelfExtendingNeverAnswers(fuel - 1);
      assert FromClassIdentifier(SelfExtending, Some(1)) == Some(SelfExtending[0]);
      assert FromName(SelfExtending, "loop") == Some(SelfExtending[0]);
    }
  }

  /** A spec that names a compatible class before naming itself. */
  const CompatibleFirst: Catalogue := [ServiceSpec("a", 1, ["b", "a"]), ServiceSpec("b", 2, [])]

  /**
   The cycle through "a" is never followed: "b" is tried first, is the class
   asked for, and ends the search at any depth of at least one.
   */
  lemma CompatibleFirstAnswers(fuel: nat)
    requires fuel >= 1
    ensures InstanceOfWithin(CompatibleFirst, fuel, 1, 2) == Some(true)
  {
    var cat := CompatibleFirst;
    assert FromClassIdentifier(cat, Some(1)) == Some(cat[0]);
    assert FromName(cat, "b") == Some(cat[1]);
    assert SomeExtends(cat, fuel - 1, cat[0].extendsList, 0, 2) == Some(true);
  }

  /** The same two names in the other order: the spec names itself first. */
  const SelfFirst: Catalogue := [ServiceSpec("a", 1, ["a", "b"]), ServiceSpec("b", 2, [])]

  /**
   With the self-reference first, the search re-enters "a" before it ever
   reaches the compatible "b", and never produces an answer.
   */
  lemma {:induction false} SelfFirstNeverAnswers(fuel: nat)
    ensures InstanceOfWithin(SelfFirst, fuel, 1, 2) == None
    decreases fuel
  {
    if fuel > 0 {
      var cat := SelfFirst;
      SelfFirstNeverAnswers(fuel - 1);
      assert FromClassIdentifier(cat, Some(1)) == Some(cat[0]);
      assert FromName(cat, "a") == Some(cat[0]);
      assert SomeExtends(cat, fuel - 1, cat[0].extendsList, 0, 2) == None;
    }
  }

  /** The class identifiers present in the catalogue. */
  function ClassIds(cat: Catalogue): (ids: set<int>)
    ensures forall i | 0 <= i < |cat| :: cat[i].classIdentifier in ids
  {
    set i | 0 <= i < |cat| :: cat[i].classIdentifier
  }

  /**
   The compatibility check with a cycle guard: a class
   already on the current `extends` path answers `false` instead of recursing
   again. It terminates on every catalogue.
   */
  function InstanceOfGuarded(cat: Catalogue, visited: set<int>, c: int, required: int): (r: bool)
    ensures c == required ==> r
    ensures c != required && c in visited ==> !r
    decreases |ClassIds(cat) - visited|
  {
    if c == required then true
    else if c in visited then false
    else match FromClassIdentifier(cat, Some(c))
      case None => false
      case Some(spec) =>
        exists j | 0 <= j < |spec.extendsList| ::
          match FromName(cat, spec.extendsList[j])
          case None => false
          case Some(d) =>
            VisitShrinks(cat, visited, c);
            InstanceOfGuarded(cat, visited + {c}, d.classIdentifier, required)
  }

  /** Visiting a class of the catalogue not yet visited leaves fewer classes to visit. */
  lemma VisitShrinks(cat: Catalogue, visited: set<int>, c: int)
    requires FromClassIdentifier(cat, Some(c)).Some? && c !in visited
    ensures |ClassIds(cat) - (visited + {c})| < |ClassIds(cat) - visited|
  {
    var i :| FirstOfClass(cat, i, c) && cat[i] == FromClassIdentifier(cat, Some(c)).value;
    assert c in ClassIds(cat) - visited;
    assert ClassIds(cat) - (visited + {c}) == (ClassIds(cat) - visited) - {c};
  }

  /**
   On an acyclic catalogue the guard never fires, so the guarded check agrees
   with the TypeScript `isInstanceOf`, provided the visited classes all rank above `c`.
   */
  lemma {:induction false} GuardedAgreesWithRanked(cat: Catalogue, rank: map<int, nat>, visited: set<int>, c: int, required: int)
    requires Ranked(cat, rank)
    requires forall v | v in visited :: v in rank && (c in rank ==> rank[c] < rank[v])
    ensures InstanceOfGuarded(cat, visited, c, required) == IsInstanceOf(cat, rank, c, required)
    decreases RankOf(rank, c)
  {
    if c != required {
      match FromClassIdentifier(cat, Some(c))
      case None =>
      case Some(spec) =>
        var i :| FirstOfClass(cat, i, c) && cat[i] == spec;
        assert c in rank && c !in visited;
        forall j | 0 <= j < |spec.extendsList| && FromName(cat, spec.extendsList[j]).Some?
          ensures InstanceOfGuarded(cat, visited + {c}, FromName(cat, spec.extendsList[j]).value.classIdentifier, required)
                  == IsInstanceOf(cat, rank, FromName(cat, spec.extendsList[j]).value.classIdentifier, required)
        {
          RankStep(cat, rank, c, spec, j);
          GuardedAgreesWithRanked(cat, rank, visited + {c}, FromName(cat, spec.extendsList[j]).value.classIdentifier, required);
        }
    }
  }

  /** From an empty path the guarded check is the TypeScript `isInstanceOf` on every acyclic catalogue. */
  lemma GuardedIsInstanceOf(cat: Catalogue, rank: map<int, nat>, c: int, required: int)
    requires Ranked(cat, rank)
    ensures InstanceOfGuarded(cat, {}, c, required) == IsInstanceOf(cat, rank, c, required)
  {
    GuardedAgreesWithRanked(cat, rank, {}, c, required);
  }

  /** On the self-extending catalogue the guarded check answers `false` where the TypeScript `isInstanceOf` never answers. */
  lemma GuardedAnswersOnSelfExtending()
    ensures !InstanceOfGuarded(SelfExtending, {}, 1, 2)
  {
    assert FromClassIdentifier(SelfExtending, Some(1)) == Some(SelfExtending[0]);
    assert FromName(SelfExtending, "loop") == Some(SelfExtending[0]);
    assert !InstanceOfGuarded(SelfExtending, {1}, 1, 2);
  }

  /** Two entries of class 5; the second, which extends itself, is shadowed by the first. */
  const ShadowedDuplicate: Catalogue := [ServiceSpec("a", 5, []), ServiceSpec("x", 5, ["x"])]

  /**
   A later entry repeating a class identifier is never read by class lookup,
   so its self-reference does not stop the catalogue from being ranked, and
   the compatibility check answers at once, as the TypeScript `isInstanceOf` does.
   */
  lemma ShadowedDuplicateIsIgnored()
    ensures Ranked(ShadowedDuplicate, map[5 := 0])
    ensures !IsInstanceOf(ShadowedDuplicate, map[5 := 0], 5, 7)
    ensures InstanceOfWithin(ShadowedDuplicate, 1, 5, 7) == Some(false)
  {
    var cat := ShadowedDuplicate;
    assert !FirstOfClass(cat, 1, cat[1].classIdentifier) by {
      assert cat[0].classIdentifier == cat[1].classIdentifier;
    }
    assert FirstOfClass(cat, 0, 5);
    assert FromClassIdentifier(cat, Some(5)) == Some(cat[0]);
  }

  // ---------------------------------------------------------------------------
  // Packet kinds and storage types
  // ---------------------------------------------------------------------------

  const RegisterKinds: set<string> := {"const", "ro", "rw"}

  /** A packet is a register iff its kind is `const`, `ro` or `rw`. */
  function IsRegister(pkt: PacketInfo): (r: bool)
    ensures r <==> pkt.kind in RegisterKinds
  {
    pkt.kind == "const" || pkt.kind == "ro" || pkt.kind == "rw"
  }

  lemma NonRegisterKinds(id: int)
    ensures !IsRegister(PacketInfo("event", id))
    ensures !IsRegister(PacketInfo("command", id))
    ensures !IsRegister(PacketInfo("report", id))
  {
    assert "event"[0] != "const"[0] && "event"[0] != "ro"[0] && "event"[0] != "rw"[0];
    assert "command"[2] != "const"[2] && "command"[0] != "ro"[0] && "command"[0] != "rw"[0];
    assert "report"[2] != "const"[2] && |"report"| != |"ro"| && |"report"| != |"rw"|;
  }

  predicate IsDigit(ch: char) {
    '0' <= ch <= '9'
  }

  /** Length of the run of decimal digits starting at `from`. */
  function DigitRun(s: string, from: nat): (n: nat)
    requires from <= |s|
    ensures from + n <= |s|
    ensures forall k | from <= k < from + n :: IsDigit(s[k])
    ensures from + n == |s| || !IsDigit(s[from + n])
    decreases |s| - from
  {
    if from == |s| || !IsDigit(s[from]) then 0 else 1 + DigitRun(s, from + 1)
  }

  /**
   The regular expression `^[ui]\d+(\.|$)`: a `u` or `i`, at least one digit,
   then a `.` or the end of the string.
   */
  ghost predicate MatchesIntegerPattern(tp: string) {
    && |tp| >= 2
    && (tp[0] == 'u' || tp[0] == 'i')
    && exists n: nat :: DigitsThenDotOrEnd(tp, n)
  }

  /** Positions 1..n of `tp` are digits, n >= 1, and position n+1 is a `.` or the end. */
  ghost predicate DigitsThenDotOrEnd(tp: string, n: nat) {
    && 1 <= n && 1 + n <= |tp|
    && (forall k | 1 <= k < 1 + n :: IsDigit(tp[k]))
    && (1 + n == |tp| || tp[1 + n] == '.')
  }

  /** The pattern holds iff the maximal digit run after the sign letter is non-empty and properly terminated. */
  lemma IntegerPatternByRun(tp: string)
    requires |tp| >= 1 && (tp[0] == 'u' || tp[0] == 'i')
    ensures MatchesIntegerPattern(tp) <==>
              var n := DigitRun(tp, 1); n >= 1 && (1 + n == |tp| || tp[1 + n] == '.')
  {
    var run := DigitRun(tp, 1);
    if MatchesIntegerPattern(tp) {
      var n: nat :| DigitsThenDotOrEnd(tp, n);
      assert run == n;
    } else if run >= 1 && (1 + run == |tp| || tp[1 + run] == '.') {
      assert DigitsThenDotOrEnd(tp, run);
    }
  }

  /** Integer storage types: `u`/`i` types (fixed-point included), `pipe_port` and `bool`. */
  function IsIntegerType(tp: string): (r: bool)
    ensures r <==> MatchesIntegerPattern(tp) || tp == "pipe_port" || tp == "bool"
  {
    var byPattern :=
      |tp| >= 1 && (tp[0] == 'u' || tp[0] == 'i') &&
      (IntegerPatternByRun(tp);
       var n := DigitRun(tp, 1);
       n >= 1 && (1 + n == |tp| || tp[1 + n] == '.'));
    byPattern || tp == "pipe_port" || tp == "bool"
  }

  lemma IntegerTypeExamples()
    ensures IsIntegerType("u0.16") && IsIntegerType("i32") && IsIntegerType("u8")
    ensures IsIntegerType("bool") && IsIntegerType("pipe_port")
    ensures !IsIntegerType("u") && !IsIntegerType("f32") && !IsIntegerType("i32x") && !IsIntegerType("u.5")
  {
  }

  /** The integer formats of the number-buffer codec: width in bytes, signedness, byte order. */
  datatype Endianness = LittleEndian | BigEndian
  datatype NumberFormat = IntFormat(bytes: nat, signed: bool, endian: Endianness)

  const Int8LE := IntFormat(1, true, LittleEndian)
  const UInt8LE := IntFormat(1, false, LittleEndian)
  const Int16LE := IntFormat(2, true, LittleEndian)
  const UInt16LE := IntFormat(2, false, LittleEndian)
  const Int32LE := IntFormat(4, true, LittleEndian)
  const UInt32LE := IntFormat(4, false, LittleEndian)
  const Int64LE := IntFormat(8, true, LittleEndian)
  const UInt64LE := IntFormat(8, false, LittleEndian)

  function Abs(x: int): nat {
    if x < 0 then -x else x
  }

  /**
   The number format of a storage type: defined exactly for the widths 1, 2,
   4 and 8 (negative for signed), always little-endian; `null` otherwise.
   */
  function NumberFormatFromStorageType(tp: int): (r: Option<NumberFormat>)
    ensures r.Some? <==> Abs(tp) in {1, 2, 4, 8}
    ensures r.Some? ==> r.value == IntFormat(Abs(tp), tp < 0, LittleEndian)
  {
    match tp
    case -1 => Some(Int8LE)
    case 1 => Some(UInt8LE)
    case -2 => Some(Int16LE)
    case 2 => Some(UInt16LE)
    case -4 => Some(Int32LE)
    case 4 => Some(UInt32LE)
    case -8 => Some(Int64LE)
    case 8 => Some(UInt64LE)
    case 0 => None
    case _ => None
  }

  /** The storage type that names a format: the byte width, negated when signed. */
  function StorageTypeOf(f: NumberFormat): int {
    if f.signed then -(f.bytes as int) else f.bytes as int
  }

  /** The table is a bijection between the eight storage types and the eight little-endian integer formats. */
  lemma StorageTypeRoundTrip(tp: int, f: NumberFormat)
    ensures NumberFormatFromStorageType(tp) == Some(f) ==> StorageTypeOf(f) == tp
    ensures f.bytes in {1, 2, 4, 8} && f.endian == LittleEndian ==>
              NumberFormatFromStorageType(StorageTypeOf(f)) == Some(f)
  {
  }

  // ---------------------------------------------------------------------------
  // Fixed-point scaling
  // ---------------------------------------------------------------------------

  function Pow2(n: nat): (p: nat)
    ensures p >= 1
  {
    if n == 0 then 1 else 2 * Pow2(n - 1)
  }

  const TwoTo31: int := 0x8000_0000
  const TwoTo32: int := 0x1_0000_0000

  /** JavaScript `ToInt32`: wrap an integer into the signed 32-bit range. */
  function ToInt32(x: int): (r: int)
    ensures -TwoTo31 <= r < TwoTo31
    ensures (r - x) % TwoTo32 == 0
  {
    var m := x % TwoTo32;
    if m >= TwoTo31 then m - TwoTo32 else m
  }

  lemma {:induction false} Pow2Add(a: nat, b: nat)
    ensures Pow2(a + b) == Pow2(a) * Pow2(b)
  {
    if a > 0 {
      Pow2Add(a - 1, b);
    }
  }

  lemma {:induction false} Pow2Monotone(a: nat, b: nat)
    requires a <= b
    ensures Pow2(a) <= Pow2(b)
  {
    if a < b {
      Pow2Monotone(a, b - 1);
    }
  }

  /** 2^31 is the first power of two outside the signed 32-bit range. */
  lemma Pow2Of31()
    ensures Pow2(31) == TwoTo31
  {
    assert Pow2(1) == 2;
    assert Pow2(2) == 4;
    assert Pow2(3) == 8;
    Pow2Add(3, 4);
    Pow2Add(7, 8);
    Pow2Add(15, 16);
  }

  /**
   JavaScript `1 << shift`: the count is taken modulo 32 (`shift & 31`, also
   for negative counts) and the result is wrapped to 32 bits, so a count of 31
   gives -2^31. An absent shift converts to 0.
   */
  function ShiftOne(shift: Option<int>): (r: int)
    ensures r != 0
    ensures shift.None? ==> r == 1
    ensures shift.Some? && shift.value % 32 < 31 ==> r == Pow2(shift.value % 32)
    ensures shift.Some? && shift.value % 32 == 31 ==> r == -TwoTo31
  {
    var count := if shift.None? then 0 else shift.value % 32;
    if count < 31 then
      Pow2Below31(count);
      ToInt32InRange(Pow2(count));
      ToInt32(Pow2(count))
    else
      Pow2Of31();
      assert ToInt32(TwoTo31) == -TwoTo31;
      ToInt32(Pow2(count))
  }

  /** Every power of two below 2^31 fits the signed 32-bit range. */
  lemma Pow2Below31(n: nat)
    requires n < 31
    ensures 1 <= Pow2(n) < TwoTo31
  {
    Pow2Monotone(n, 30);
    Pow2Of31();
    assert Pow2(31) == 2 * Pow2(30);
  }

  /** `ToInt32` is the identity on the non-negative part of the signed range. */
  lemma ToInt32InRange(x: int)
    requires 0 <= x < TwoTo31
    ensures ToInt32(x) == x
  {
  }

  /**
   The real value of a raw fixed-point field: the raw value divided by
   `1 << shift`. For shifts 0..30 this undoes a multiplication by 2^shift.
   */
  function ScaleValue(v: real, info: PacketMember): (r: real)
    ensures info.shift.None? ==> r == v
    ensures info.shift.Some? && 0 <= info.shift.value <= 30 ==> r * (Pow2(info.shift.value) as real) == v
    ensures info.shift.Some? && info.shift.value % 32 == 31 ==> r * (TwoTo31 as real) == -v
  {
    var divisor := ShiftOne(info.shift);
    DivideBack(v, divisor as real);
    assert info.shift.Some? && 0 <= info.shift.value <= 30 ==> info.shift.value % 32 == info.shift.value;
    v / divisor as real
  }

  lemma DivideBack(v: real, d: real)
    requires d != 0.0
    ensures (v / d) * d == v
  {
  }
}
