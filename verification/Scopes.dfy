/** Permissions and scopes: what a delegation authorizes, and when one narrows another. */
module Scopes {
  import opened Wrappers

  const U64_MAX: nat := 0xFFFF_FFFF_FFFF_FFFF

  type U64 = n: nat | n <= U64_MAX

  datatype Constraint = AmountMax(max: U64) | ResourceIn(resources: seq<string>)

  datatype Permission = Permission(action: string, constraints: seq<Constraint>)

  datatype ChainError =
    | ScopeWidened
    | ExpiryExtended
    | DepthExceeded
    | MissingPurpose
    | BrokenHashLink
    | SignatureInvalid(block: nat)
    | WrongSigner
    | PrincipalMismatch
    | RootKeyMismatch
    | Crypto

  /** The tightest amount ceiling, or the largest word when there is none. */
  function AmountCeiling(constraints: seq<Constraint>): U64 {
    if constraints == [] then U64_MAX
    else
      var rest, last := AmountCeiling(constraints[..|constraints| - 1]), constraints[|constraints| - 1];
      if last.AmountMax? && last.max < rest then last.max else rest
  }

  /** The intersection of all resource lists, or `None` for any resource. */
  function ResourceSet(constraints: seq<Constraint>): Option<set<string>> {
    if constraints == [] then None
    else
      var rest, last := ResourceSet(constraints[..|constraints| - 1]), constraints[|constraints| - 1];
      match last
      case AmountMax(_) => rest
      case ResourceIn(names) =>
        var listed := set name | name in names;
        Some(if rest.Some? then rest.value * listed else listed)
  }

  /** What one constraint lets through. */
  predicate Satisfies(amount: U64, resource: string, constraint: Constraint) {
    match constraint
    case AmountMax(max) => amount <= max
    case ResourceIn(names) => resource in names
  }

  /** The meaning of a permission: one use of an action is allowed when every constraint lets it through. */
  predicate Permits(permission: Permission, action: string, amount: U64, resource: string) {
    && action == permission.action
    && forall c :: c in permission.constraints ==> Satisfies(amount, resource, c)
  }

  /** The two summaries say exactly what the constraints say one by one. */
  lemma {:induction false} SummariesExact(constraints: seq<Constraint>, amount: U64, resource: string)
    ensures (forall c :: c in constraints ==> Satisfies(amount, resource, c)) <==>
            && amount <= AmountCeiling(constraints)
            && (ResourceSet(constraints).None? || resource in ResourceSet(constraints).value)
  {
    if constraints != [] {
      var front, last := constraints[..|constraints| - 1], constraints[|constraints| - 1];
      SummariesExact(front, amount, resource);
      assert constraints == front + [last];
      assert (forall c :: c in constraints ==> Satisfies(amount, resource, c)) <==>
             (forall c :: c in front ==> Satisfies(amount, resource, c)) && Satisfies(amount, resource, last);
    }
  }

  predicate AuthorizesSubsetOf(child: Permission, parent: Permission) {
    && child.action == parent.action
    && AmountCeiling(child.constraints) <= AmountCeiling(parent.constraints)
    && match ResourceSet(parent.constraints)
       case None => true
       case Some(parentSet) =>
         match ResourceSet(child.constraints)
         case None => false
         case Some(childSet) => childSet <= parentSet
  }

  /** Every use the child allows, the parent allows. */
  ghost predicate MeansSubsetOf(child: Permission, parent: Permission) {
    forall action, amount, resource :: Permits(child, action, amount, resource) ==>
           Permits(parent, action, amount, resource)
  }

  /** The test is sound for every pair, and exact unless the child's own resource lists leave it
      no resource at all. */
  lemma AuthorizesSubsetExact(child: Permission, parent: Permission)
    ensures AuthorizesSubsetOf(child, parent) ==> MeansSubsetOf(child, parent)
    ensures ResourceSet(child.constraints) != Some({}) ==>
            (AuthorizesSubsetOf(child, parent) <==> MeansSubsetOf(child, parent))
  {
    if AuthorizesSubsetOf(child, parent) {
      forall action, amount, resource | Permits(child, action, amount, resource)
        ensures Permits(parent, action, amount, resource)
      {
        SummariesExact(child.constraints, amount, resource);
        SummariesExact(parent.constraints, amount, resource);
      }
    } else if ResourceSet(child.constraints) != Some({}) {
      var resource := DistinguishingResource(child, parent);
      var ceiling := AmountCeiling(child.constraints);
      SummariesExact(child.constraints, ceiling, resource);
      SummariesExact(parent.constraints, ceiling, resource);
      assert Permits(child, child.action, ceiling, resource);
      assert !Permits(parent, child.action, ceiling, resource);
    }
  }

  /** A resource the child reaches and, when the parent's set does not cover the child's, the
      parent does not. */
  lemma DistinguishingResource(child: Permission, parent: Permission) returns (resource: string)
    requires ResourceSet(child.constraints) != Some({})
    ensures var mine, theirs := ResourceSet(child.constraints), ResourceSet(parent.constraints);
            && (mine.Some? ==> resource in mine.value)
            && (theirs.Some? && !(mine.Some? && mine.value <= theirs.value) ==> resource !in theirs.value)
  {
    var mine, theirs := ResourceSet(child.constraints), ResourceSet(parent.constraints);
    if mine.None? {
      resource := FreshString(if theirs.Some? then theirs.value else {});
    } else if theirs.Some? && !(mine.value <= theirs.value) {
      resource :| resource in mine.value && resource !in theirs.value;
    } else {
      assert mine.value != {};
      resource :| resource in mine.value;
    }
  }

  /** No finite set holds every string. */
  lemma {:induction false} FreshString(names: set<string>) returns (name: string)
    ensures name !in names && forall other :: other in names ==> |other| < |name|
  {
    if names == {} {
      name := "";
    } else {
      var some :| some in names;
      var longer := FreshString(names - {some});
      name := if |some| < |longer| then longer else some + "x";
    }
  }

  /** A permission whose resource lists do not meet allows nothing, so the exception in the
      theorem above is the whole family where the test may refuse a child that is in fact narrower. */
  lemma EmptyResourcesPermitNothing(child: Permission, parent: Permission)
    requires ResourceSet(child.constraints) == Some({})
    ensures MeansSubsetOf(child, parent)
    ensures AuthorizesSubsetOf(child, parent) <==>
            child.action == parent.action && AmountCeiling(child.constraints) <= AmountCeiling(parent.constraints)
  {
    forall action, amount, resource ensures !Permits(child, action, amount, resource) {
      SummariesExact(child.constraints, amount, resource);
    }
  }

  /** Exactly when the test answers what the permissions mean: the child has a resource left, or
      it names the parent's action under no higher ceiling. */
  lemma TestMeansWhatItSays(child: Permission, parent: Permission)
    ensures (AuthorizesSubsetOf(child, parent) <==> MeansSubsetOf(child, parent)) <==>
            || ResourceSet(child.constraints) != Some({})
            || (child.action == parent.action
                && AmountCeiling(child.constraints) <= AmountCeiling(parent.constraints))
  {
    if ResourceSet(child.constraints) == Some({}) {
      EmptyResourcesPermitNothing(child, parent);
    } else {
      AuthorizesSubsetExact(child, parent);
    }
  }

  /** A child refused although it allows nothing at all: it asks for one action on no resource
      from a parent that holds another. */
  lemma EmptiedChildRefused()
    ensures var child, parent := Permission("pay", [ResourceIn([])]), Permission("read", []);
            MeansSubsetOf(child, parent) && !AuthorizesSubsetOf(child, parent)
  {
    var child, parent := Permission("pay", [ResourceIn([])]), Permission("read", []);
    NoResources();
    EmptyResourcesPermitNothing(child, parent);
  }

  lemma NoResources()
    ensures ResourceSet([ResourceIn([])]) == Some({})
  {
    var constraints := [ResourceIn([])];
    assert ResourceSet(constraints[..0]) == None;
    assert (set name: string | name in constraints[0].resources) == {};
  }

  /** What the test decides for every pair: the meaning when a resource is left, the action and
      the ceiling alone when none is. */
  ghost predicate CoveredBy(child: Permission, parent: Permission) {
    if ResourceSet(child.constraints) == Some({}) then
      child.action == parent.action && AmountCeiling(child.constraints) <= AmountCeiling(parent.constraints)
    else MeansSubsetOf(child, parent)
  }

  lemma CoveredByExact(child: Permission, parent: Permission)
    ensures AuthorizesSubsetOf(child, parent) <==> CoveredBy(child, parent)
  {
    if ResourceSet(child.constraints) == Some({}) {
      EmptyResourcesPermitNothing(child, parent);
    } else {
      AuthorizesSubsetExact(child, parent);
    }
  }

  lemma AuthorizesSubsetTransitive(a: Permission, b: Permission, c: Permission)
    requires AuthorizesSubsetOf(a, b) && AuthorizesSubsetOf(b, c)
    ensures AuthorizesSubsetOf(a, c)
  {}

  /** The envelope every block carries. */
  datatype Scope = Scope(
    permissions: seq<Permission>,
    budget: Option<U64>,
    currency: Option<string>,
    maxDepth: nat,
    expiresAt: U64)

  /** `is_narrowing_of`: the first violated rule, if any. Depth is not looked at. */
  function NarrowingOf(child: Scope, parent: Scope): Result<(), ChainError> {
    if !PermissionsNarrow(child, parent) then Err(ScopeWidened)
    else if child.budget.Some? && parent.budget.Some? && child.budget.value > parent.budget.value then Err(ScopeWidened)
    else if child.budget.None? && parent.budget.Some? then Err(ScopeWidened)
    else if child.budget.Some? && parent.budget.Some? && child.currency != parent.currency then Err(ScopeWidened)
    else if child.expiresAt > parent.expiresAt then Err(ExpiryExtended)
    else Ok(())
  }

  /** Every child permission is covered by a single parent permission. */
  predicate PermissionsNarrow(child: Scope, parent: Scope) {
    forall p :: p in child.permissions ==> exists q :: q in parent.permissions && AuthorizesSubsetOf(p, q)
  }

  predicate Narrows(child: Scope, parent: Scope) {
    NarrowingOf(child, parent) == Ok(())
  }

  /** One use of an action the scope allows. */
  predicate ScopePermits(scope: Scope, action: string, amount: U64, resource: string) {
    exists p :: p in scope.permissions && Permits(p, action, amount, resource)
  }

  /** What spending under a budget and until a deadline may look like. */
  predicate WithinLimits(scope: Scope, spent: nat, currency: Option<string>, time: nat) {
    && (scope.budget.Some? ==> spent <= scope.budget.value && currency == scope.currency)
    && time <= scope.expiresAt
  }

  lemma NarrowsReflexive(scope: Scope)
    ensures Narrows(scope, scope)
  {
    forall p | p in scope.permissions ensures exists q :: q in scope.permissions && AuthorizesSubsetOf(p, q) {
      assert AuthorizesSubsetOf(p, p);
    }
  }

  /** Narrowing composes. */
  lemma NarrowsTransitive(a: Scope, b: Scope, c: Scope)
    requires Narrows(a, b) && Narrows(b, c)
    ensures Narrows(a, c)
  {
    forall p | p in a.permissions ensures exists r :: r in c.permissions && AuthorizesSubsetOf(p, r) {
      var q :| q in b.permissions && AuthorizesSubsetOf(p, q);
      var r :| r in c.permissions && AuthorizesSubsetOf(q, r);
      AuthorizesSubsetTransitive(p, q, r);
    }
  }

  /** A narrowed scope allows nothing its parent does not, on any dimension. */
  lemma NarrowsMeaning(child: Scope, parent: Scope, action: string, amount: U64, resource: string,
                       spent: nat, currency: Option<string>, time: nat)
    requires Narrows(child, parent)
    ensures ScopePermits(child, action, amount, resource) ==> ScopePermits(parent, action, amount, resource)
    ensures WithinLimits(child, spent, currency, time) ==> WithinLimits(parent, spent, currency, time)
  {
    NarrowMeansWithin(child, parent);
  }

  /** Every way to spend within the child's limits is within the parent's. */
  ghost predicate LimitsWithin(child: Scope, parent: Scope) {
    forall spent, currency, time {:trigger WithinLimits(child, spent, currency, time)} ::
      WithinLimits(child, spent, currency, time) ==> WithinLimits(parent, spent, currency, time)
  }

  /** Each child permission is covered by some one parent permission. */
  ghost predicate PermissionsCovered(child: Scope, parent: Scope) {
    forall p :: p in child.permissions ==> exists q :: q in parent.permissions && CoveredBy(p, q)
  }

  lemma LimitsExact(child: Scope, parent: Scope)
    requires PermissionsNarrow(child, parent)
    ensures Narrows(child, parent) <==> LimitsWithin(child, parent)
  {
    if LimitsWithin(child, parent) {
      var most := if child.budget.Some? then child.budget.value else if parent.budget.Some? then parent.budget.value +
                  1 else 0;
      assert WithinLimits(child, most, child.currency, child.expiresAt);
      assert WithinLimits(parent, most, child.currency, child.expiresAt);
    }
  }

  /** MAIN RESULT. Narrowing is exactly this: one of the parent's permissions covers each of the
      child's, and nothing within the child's budget, currency and expiry is outside the
      parent's. An expiry error means that the expiry is all that is wrong. */
  lemma NarrowsExact(child: Scope, parent: Scope)
    ensures Narrows(child, parent) <==> PermissionsCovered(child, parent) && LimitsWithin(child, parent)
    ensures NarrowingOf(child, parent) == Err(ExpiryExtended) <==>
            child.expiresAt > parent.expiresAt && Narrows(child.(expiresAt := parent.expiresAt), parent)
    ensures NarrowingOf(child, parent) in {Ok(()), Err(ExpiryExtended), Err(ScopeWidened)}
  {
    PermissionsExact(child, parent);
    if PermissionsNarrow(child, parent) { LimitsExact(child, parent); }
  }

  lemma PermissionsExact(child: Scope, parent: Scope)
    ensures PermissionsNarrow(child, parent) <==> PermissionsCovered(child, parent)
  {
    forall p, q | p in child.permissions && q in parent.permissions
      ensures AuthorizesSubsetOf(p, q) <==> CoveredBy(p, q)
    {
      CoveredByExact(p, q);
    }
  }

  /** The same at scope level: with equal limits, a scope that allows no use of anything is
      refused as widened. */
  lemma EmptiedScopeRefused(limits: Scope, action: string, amount: U64, resource: string)
    ensures var child := limits.(permissions := [Permission("pay", [ResourceIn([])])]);
            var parent := limits.(permissions := [Permission("read", [])]);
            NarrowingOf(child, parent) == Err(ScopeWidened) && !ScopePermits(child, action, amount, resource)
  {
    var child, parent := Permission("pay", [ResourceIn([])]), Permission("read", []);
    EmptiedChildRefused();
    assert child in limits.(permissions := [child]).permissions;
    NoResources();
    SummariesExact(child.constraints, amount, resource);
  }

  // What a whole scope allows

  /** Every use the child scope allows, the parent scope allows. */
  ghost predicate ScopeMeansWithin(child: Scope, parent: Scope) {
    forall action, amount, resource :: ScopePermits(child, action, amount, resource) ==>
                                       ScopePermits(parent, action, amount, resource)
  }

  /** The parent states each action once. */
  ghost predicate OnePerAction(scope: Scope) {
    forall p, q :: p in scope.permissions && q in scope.permissions && p.action == q.action ==> p == q
  }

  lemma NarrowMeansWithin(child: Scope, parent: Scope)
    requires PermissionsNarrow(child, parent)
    ensures ScopeMeansWithin(child, parent)
  {
    forall action, amount, resource | ScopePermits(child, action, amount, resource)
      ensures ScopePermits(parent, action, amount, resource)
    {
      var p :| p in child.permissions && Permits(p, action, amount, resource);
      var q :| q in parent.permissions && AuthorizesSubsetOf(p, q);
      AuthorizesSubsetExact(p, q);
      assert Permits(q, action, amount, resource);
    }
  }

  /** MAIN RESULT. For a parent with one permission per action, and a child whose permissions all
      have a resource left, permissions narrow exactly when the child scope as a whole allows
      nothing beyond the parent scope. */
  lemma PermissionsMeanExact(child: Scope, parent: Scope)
    requires OnePerAction(parent) && forall p :: p in child.permissions ==> ResourceSet(p.constraints) != Some({})
    ensures PermissionsNarrow(child, parent) <==> ScopeMeansWithin(child, parent)
  {
    if PermissionsNarrow(child, parent) { NarrowMeansWithin(child, parent); }
    if ScopeMeansWithin(child, parent) {
      forall p | p in child.permissions ensures exists q :: q in parent.permissions && AuthorizesSubsetOf(p, q) {
        var q := CoveringPermission(child, parent, p);
      }
    }
  }

  lemma CoveringPermission(child: Scope, parent: Scope, p: Permission) returns (q: Permission)
    requires OnePerAction(parent) && ScopeMeansWithin(child, parent)
    requires p in child.permissions && ResourceSet(p.constraints) != Some({})
    ensures q in parent.permissions && AuthorizesSubsetOf(p, q)
  {
    var resource := DistinguishingResource(p, p);
    var ceiling := AmountCeiling(p.constraints);
    SummariesExact(p.constraints, ceiling, resource);
    assert Permits(p, p.action, ceiling, resource) && ScopePermits(child, p.action, ceiling, resource);
    q :| q in parent.permissions && Permits(q, p.action, ceiling, resource);
    forall action, amount, used | Permits(p, action, amount, used) ensures Permits(q, action, amount, used) {
      assert ScopePermits(child, action, amount, used);
      var other :| other in parent.permissions && Permits(other, action, amount, used);
      assert other == q;
    }
    AuthorizesSubsetExact(p, q);
  }

  lemma OneList(names: seq<string>)
    ensures ResourceSet([ResourceIn(names)]) == Some(set name | name in names)
    ensures AmountCeiling([ResourceIn(names)]) == U64_MAX
  {
    assert [ResourceIn(names)][..0] == [];
    assert ResourceSet([ResourceIn(names)][..0]) == None;
  }

  lemma Uncovered(child: Permission, parent: Permission, resource: string)
    requires ResourceSet(child.constraints).Some? && resource in ResourceSet(child.constraints).value
    requires ResourceSet(parent.constraints).Some? && resource !in ResourceSet(parent.constraints).value
    ensures !AuthorizesSubsetOf(child, parent)
  {}

  /** A child covered only by two of its parent's permissions together: it allows nothing beyond
      the parent and is refused as widened. */
  lemma JointlyCoveredRefused(limits: Scope)
    ensures var child := limits.(permissions := [Permission("pay", [ResourceIn(["a", "b"])])]);
            var parent := limits.(permissions := [Permission("pay", [ResourceIn(["a"])]),
                                                  Permission("pay", [ResourceIn(["b"])])]);
            ScopeMeansWithin(child, parent) && NarrowingOf(child, parent) == Err(ScopeWidened)
  {
    var both := Permission("pay", [ResourceIn(["a", "b"])]);
    var first, second := Permission("pay", [ResourceIn(["a"])]), Permission("pay", [ResourceIn(["b"])]);
    var child, parent := limits.(permissions := [both]), limits.(permissions := [first, second]);
    OneList(["a", "b"]);
    OneList(["a"]);
    OneList(["b"]);
    assert ["a", "b"][0] == "a" && ["a", "b"][1] == "b";
    Uncovered(both, first, "b");
    Uncovered(both, second, "a");
    assert both in child.permissions;
    forall action, amount, resource | ScopePermits(child, action, amount, resource)
      ensures ScopePermits(parent, action, amount, resource)
    {
      assert Permits(both, action, amount, resource);
      assert Satisfies(amount, resource, both.constraints[0]);
      if resource == "a" {
        assert Permits(first, action, amount, resource) && first in parent.permissions;
      } else {
        assert Permits(second, action, amount, resource) && second in parent.permissions;
      }
    }
  }
}
