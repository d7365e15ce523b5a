/** Predicate pushdown: filter conditions move from a predicate node into the table scan below it. */
module Pushdown {
  import opened Wrappers

  /** Kinds of operands of a comparison that matter here. */
  datatype Operand = Field(name: string) | Value(v: int) | Computed(id: int)

  datatype Expr =
    | Constant(b: bool)
    | Comparison(left: Operand, op: int, right: Operand)
    | Opaque(id: int)
    | And(children: seq<Expr>)
    | Or(children: seq<Expr>)

  // ---- meaning of expressions ----

  /** Which comparisons and opaque expressions are true of a row. */
  type Valuation = Expr -> bool

  /** `get_value`: an empty conjunction, of either type, is true. */
  ghost predicate Holds(e: Expr, v: Valuation) {
    match e
    case Constant(b) => b
    case Comparison(_, _, _) => v(e)
    case Opaque(_) => v(e)
    case And(cs) => forall i :: 0 <= i < |cs| ==> Holds(cs[i], v)
    case Or(cs) => cs == [] || exists i :: 0 <= i < |cs| && Holds(cs[i], v)
  }

  ghost predicate All(es: seq<Expr>, v: Valuation) {
    forall i :: 0 <= i < |es| ==> Holds(es[i], v)
  }

  // ---- the rule on expressions ----

  /** The code's test: one side is a field. The second condition it writes down can never fail then. */
  predicate CanPush(e: Expr) {
    e.Comparison? && (e.left.Field? || e.right.Field?)
  }

  /** What is moved to the scan, in order. */
  function Pushed(e: Expr): seq<Expr> {
    match e
    case And(cs) => PushedAll(cs)
    case Comparison(_, _, _) => if CanPush(e) then [e] else []
    case _ => []
  }

  function PushedAll(cs: seq<Expr>): seq<Expr> {
    if cs == [] then [] else PushedAll(cs[..|cs| - 1]) + Pushed(cs[|cs| - 1])
  }

  /** What stays; nothing, if the expression itself was moved. */
  function Rest(e: Expr): Option<Expr> {
    match e
    case And(cs) => Some(And(RestAll(cs)))
    case Comparison(_, _, _) => if CanPush(e) then None else Some(e)
    case _ => Some(e)
  }

  function RestAll(cs: seq<Expr>): seq<Expr> {
    if cs == [] then [] else RestAll(cs[..|cs| - 1]) + OptionSeq(Rest(cs[|cs| - 1]))
  }

  function OptionSeq(o: Option<Expr>): seq<Expr> {
    match o
    case None => []
    case Some(e) => [e]
  }

  lemma OneMore(cs: seq<Expr>, n: nat, before: seq<Expr>)
    requires n < |cs|
    ensures before + PushedAll(cs[..n + 1]) == before + PushedAll(cs[..n]) + Pushed(cs[n])
    ensures RestAll(cs[..n + 1]) == RestAll(cs[..n]) + OptionSeq(Rest(cs[n]))
  {
    assert cs[..n + 1][..n] == cs[..n];
  }

  lemma Erased(done: seq<Expr>, cs: seq<Expr>, n: nat)
    requires n < |cs|
    ensures var now := done + cs[n..]; now[..|done|] + now[|done| + 1..] == done + [] + cs[n + 1..]
  {
  }

  lemma Kept(done: seq<Expr>, cs: seq<Expr>, n: nat, e: Expr)
    requires n < |cs|
    ensures (done + cs[n..])[|done| := e] == done + [e] + cs[n + 1..]
  {
  }

  /** `get_exprs_can_pushdown`. */
  method GetExprsCanPushdown(e: Expr, pushedSoFar: seq<Expr>) returns (rest: Option<Expr>, pushed: seq<Expr>)
    ensures rest == Rest(e) && pushed == pushedSoFar + Pushed(e)
    ensures exists moved :: pushed == pushedSoFar + moved && MovesAll(e, moved)
    decreases e
  {
    PushedMoves(e);
    rest, pushed := Some(e), pushedSoFar;
    if e.And? {
      var children;
      children, pushed := PushdownChildren(e.children, pushed);
      rest := Some(And(children));
    } else if e.Comparison? {
      var left, right := e.left, e.right;
      if !left.Field? && !right.Field? {
        return;
      }
      if !left.Field? && !left.Value? && !right.Field? && !right.Value? {
        return;
      }
      rest, pushed := None, pushed + [e];
    }
  }

  /** The loop over the children of a conjunction, which erases those that were moved. */
  method PushdownChildren(cs: seq<Expr>, pushedSoFar: seq<Expr>) returns (children: seq<Expr>, pushed: seq<Expr>)
    ensures children == RestAll(cs) && pushed == pushedSoFar + PushedAll(cs)
    decreases cs
  {
    assert cs[..0] == [] && cs[0..] == cs && RestAll([]) + cs == cs && pushedSoFar + PushedAll([]) == pushedSoFar;
    children, pushed := cs, pushedSoFar;
    var iter := 0;
    ghost var n := 0;
    while iter < |children|
      invariant 0 <= n <= |cs| && iter == |RestAll(cs[..n])| && children == RestAll(cs[..n]) + cs[n..]
      invariant pushed == pushedSoFar + PushedAll(cs[..n])
      decreases |children| - iter
    {
      OneMore(cs, n, pushedSoFar);
      assert children[iter] == cs[n];
      var child;
      child, pushed := GetExprsCanPushdown(children[iter], pushed);
      if child.None? {
        Erased(RestAll(cs[..n]), cs, n);
        children := children[..iter] + children[iter + 1..];
      } else {
        Kept(RestAll(cs[..n]), cs, n, child.value);
        children := children[iter := child.value];
        iter := iter + 1;
      }
      n := n + 1;
    }
    assert cs[..n] == cs;
  }

  // ---- everything that can be moved is moved ----

  /** A comparison with a field on one side. */
  predicate OnField(e: Expr) {
    e.Comparison? && (e.left.Field? || e.right.Field?)
  }

  /** Going down from `e` through ANDs, taking the child that each step of the path names, leads to `x`. */
  ghost predicate Leads(e: Expr, path: seq<nat>, x: Expr)
    decreases |path|
  {
    if path == [] then x == e
    else e.And? && path[0] < |e.children| && Leads(e.children[path[0]], path[1..], x)
  }

  /** `p` comes before `q` from left to right. */
  ghost predicate LeftOf(p: seq<nat>, q: seq<nat>) {
    p != [] && q != [] && (p[0] < q[0] || (p[0] == q[0] && LeftOf(p[1..], q[1..])))
  }

  ghost predicate LeftToRight(paths: seq<seq<nat>>) {
    forall i, j :: 0 <= i < j < |paths| ==> LeftOf(paths[i], paths[j])
  }

  /** `moved` lists exactly the comparisons on a field that ANDs lead to: one for each path, from left to right. */
  ghost predicate MovesAll(e: Expr, moved: seq<Expr>) {
    exists paths :: MovesAlong(e, moved, paths)
  }

  ghost predicate MovesAlong(e: Expr, moved: seq<Expr>, paths: seq<seq<nat>>) {
    && |paths| == |moved| && LeftToRight(paths)
    && (forall i :: 0 <= i < |moved| ==> OnField(moved[i]) && Leads(e, paths[i], moved[i]))
    && (forall path, x :: Leads(e, path, x) && OnField(x) ==> path in paths)
  }

  ghost function Paths(e: Expr): seq<seq<nat>> {
    match e
    case And(cs) => PathsAll(cs)
    case Comparison(_, _, _) => if OnField(e) then [[]] else []
    case _ => []
  }

  ghost function PathsAll(cs: seq<Expr>): seq<seq<nat>> {
    if cs == [] then [] else PathsAll(cs[..|cs| - 1]) + Below(|cs| - 1, Paths(cs[|cs| - 1]))
  }

  ghost function Below(n: nat, paths: seq<seq<nat>>): seq<seq<nat>> {
    seq(|paths|, i requires 0 <= i < |paths| => [n] + paths[i])
  }

  /** Like `MovesAlong`, for the children of a conjunction. */
  ghost predicate ChildrenAlong(cs: seq<Expr>, moved: seq<Expr>, paths: seq<seq<nat>>) {
    && |paths| == |moved| && LeftToRight(paths)
    && (forall i :: 0 <= i < |moved| ==> OnField(moved[i]) && Leads(And(cs), paths[i], moved[i]))
    && (forall i :: 0 <= i < |moved| ==> paths[i] != [])
    && (forall j: nat, path, x :: j < |cs| && Leads(cs[j], path, x) && OnField(x) ==> [j] + path in paths)
  }

  lemma {:induction false} PushedMoves(e: Expr)
    ensures MovesAlong(e, Pushed(e), Paths(e))
    decreases e
  {
    if e.And? {
      ChildrenMove(e.children);
      forall path, x | Leads(e, path, x) && OnField(x)
        ensures path in Paths(e)
      {
        assert path != [] && path == [path[0]] + path[1..];
      }
    } else {
      forall path, x | Leads(e, path, x) && OnField(x)
        ensures path in Paths(e)
      {
        assert path == [];
      }
    }
  }

  lemma {:induction false} ChildrenMove(cs: seq<Expr>)
    ensures ChildrenAlong(cs, PushedAll(cs), PathsAll(cs))
    decreases cs
  {
    if cs != [] {
      var n := |cs| - 1;
      ChildrenMove(cs[..n]);
      PushedMoves(cs[n]);
      ChildrenPlus(cs, PushedAll(cs[..n]), PathsAll(cs[..n]), Pushed(cs[n]), Paths(cs[n]));
    }
  }

  lemma ChildrenPlus(cs: seq<Expr>, moved: seq<Expr>, paths: seq<seq<nat>>, last: seq<Expr>, below: seq<seq<nat>>)
    requires cs != [] && ChildrenAlong(cs[..|cs| - 1], moved, paths) && MovesAlong(cs[|cs| - 1], last, below)
    ensures ChildrenAlong(cs, moved + last, paths + Below(|cs| - 1, below))
  {
    var n := |cs| - 1;
    var all, ps := moved + last, paths + Below(n, below);
    forall i | 0 <= i < |all|
      ensures OnField(all[i]) && ps[i] != [] && Leads(And(cs), ps[i], all[i]) && (i < |moved| <==> ps[i][0] < n)
    {
      if i < |moved| {
        assert ps[i] == paths[i] && Leads(And(cs[..n]), paths[i], moved[i]);
      } else {
        LeadsBelow(cs, n, below[i - |moved|], last[i - |moved|]);
      }
    }
    forall i, j | 0 <= i < j < |ps|
      ensures LeftOf(ps[i], ps[j])
    {
      if j < |moved| {
        assert LeftOf(paths[i], paths[j]);
      } else if i >= |moved| {
        assert LeftOf(below[i - |moved|], below[j - |moved|]);
        assert ps[i][1..] == below[i - |moved|] && ps[j][1..] == below[j - |moved|];
      }
    }
    forall j: nat, path, x | j < |cs| && Leads(cs[j], path, x) && OnField(x)
      ensures [j] + path in ps
    {
      if j < n {
        assert Leads(cs[..n][j], path, x);
      } else {
        var i :| 0 <= i < |below| && below[i] == path;
        assert ps[|paths| + i] == [n] + path;
      }
    }
  }

  lemma LeadsBelow(cs: seq<Expr>, j: nat, path: seq<nat>, x: Expr)
    requires j < |cs| && Leads(cs[j], path, x)
    ensures Leads(And(cs), [j] + path, x)
  {
    assert ([j] + path)[1..] == path;
  }

  /** There is something to move. */
  ghost predicate SomeMoves(e: Expr) {
    exists path: seq<nat>, x: Expr :: Leads(e, path, x) && OnField(x)
  }

  /** Moving nothing means that there is nothing to move. */
  lemma MovesNothing(e: Expr)
    ensures Pushed(e) != [] <==> SomeMoves(e)
  {
    PushedMoves(e);
    if Pushed(e) != [] {
      var path, x := Paths(e)[0], Pushed(e)[0];
      assert Leads(e, path, x) && OnField(x);
    }
  }

  // ---- nothing is lost ----

  ghost predicate HoldsOption(o: Option<Expr>, v: Valuation) {
    o.Some? ==> Holds(o.value, v)
  }

  /** The moved comparisons together with what stays say what the expression said. */
  lemma {:induction false} SplitMeaning(e: Expr, v: Valuation)
    ensures All(Pushed(e), v) && HoldsOption(Rest(e), v) <==> Holds(e, v)
    decreases e
  {
    if e.And? {
      SplitAll(e.children, v);
    } else if CanPush(e) {
      assert All([e], v) <==> Holds([e][0], v);
    }
  }

  lemma {:induction false} SplitAll(cs: seq<Expr>, v: Valuation)
    ensures All(PushedAll(cs), v) && All(RestAll(cs), v) <==> All(cs, v)
    decreases cs
  {
    if cs != [] {
      var n := |cs| - 1;
      SplitAll(cs[..n], v);
      SplitMeaning(cs[n], v);
      AllPlus(PushedAll(cs[..n]), Pushed(cs[n]), v);
      AllPlus(RestAll(cs[..n]), OptionSeq(Rest(cs[n])), v);
      AllPlus(cs[..n], [cs[n]], v);
      assert cs == cs[..n] + [cs[n]];
      AllOption(Rest(cs[n]), v);
      assert All([cs[n]], v) <==> Holds([cs[n]][0], v);
    }
  }

  lemma AllPlus(a: seq<Expr>, b: seq<Expr>, v: Valuation)
    ensures All(a + b, v) <==> All(a, v) && All(b, v)
  {
    assert forall i :: 0 <= i < |a| ==> (a + b)[i] == a[i];
    assert forall i :: 0 <= i < |b| ==> (a + b)[|a| + i] == b[i];
  }

  lemma AllOption(o: Option<Expr>, v: Valuation)
    ensures All(OptionSeq(o), v) <==> HoldsOption(o, v)
  {
    assert o.Some? ==> OptionSeq(o)[0] == o.value;
  }

  /** The comparisons in an expression, with their number of occurrences. */
  ghost function Comparisons(e: Expr): multiset<Expr> {
    match e
    case Comparison(_, _, _) => multiset{e}
    case And(cs) => ComparisonsAll(cs)
    case Or(cs) => ComparisonsAll(cs)
    case _ => multiset{}
  }

  ghost function ComparisonsAll(cs: seq<Expr>): multiset<Expr> {
    if cs == [] then multiset{} else ComparisonsAll(cs[..|cs| - 1]) + Comparisons(cs[|cs| - 1])
  }

  ghost function ComparisonsOption(o: Option<Expr>): multiset<Expr> {
    if o.None? then multiset{} else Comparisons(o.value)
  }

  /** Every comparison is either moved or stays, as often as it occurs. */
  lemma {:induction false} Conserved(e: Expr)
    ensures multiset(Pushed(e)) + ComparisonsOption(Rest(e)) == Comparisons(e)
    decreases e
  {
    if e.And? {
      ConservedAll(e.children);
    }
  }

  lemma {:induction false} ConservedAll(cs: seq<Expr>)
    ensures multiset(PushedAll(cs)) + ComparisonsAll(RestAll(cs)) == ComparisonsAll(cs)
    decreases cs
  {
    if cs != [] {
      var n := |cs| - 1;
      ConservedAll(cs[..n]);
      Conserved(cs[n]);
      ComparisonsPlus(RestAll(cs[..n]), Rest(cs[n]));
    }
  }

  lemma ComparisonsPlus(cs: seq<Expr>, o: Option<Expr>)
    ensures ComparisonsAll(cs + OptionSeq(o)) == ComparisonsAll(cs) + ComparisonsOption(o)
  {
    if o.Some? {
      assert (cs + [o.value])[..|cs|] == cs;
    } else {
      assert cs + [] == cs;
    }
  }

  /** What stays has nothing more to move. */
  lemma {:induction false} RestIsFixed(e: Expr)
    ensures Rest(e).Some? ==> Pushed(Rest(e).value) == [] && Rest(Rest(e).value) == Rest(e)
    ensures forall i :: 0 <= i < |Pushed(e)| ==> CanPush(Pushed(e)[i])
    decreases e
  {
    if e.And? {
      RestAllIsFixed(e.children);
    }
  }

  lemma {:induction false} RestAllIsFixed(cs: seq<Expr>)
    ensures PushedAll(RestAll(cs)) == [] && RestAll(RestAll(cs)) == RestAll(cs)
    ensures forall i :: 0 <= i < |PushedAll(cs)| ==> CanPush(PushedAll(cs)[i])
    decreases cs
  {
    if cs != [] {
      var n := |cs| - 1;
      RestAllIsFixed(cs[..n]);
      RestIsFixed(cs[n]);
      var r := Rest(cs[n]);
      if r.Some? {
        var rs := RestAll(cs[..n]) + [r.value];
        assert rs[..|rs| - 1] == RestAll(cs[..n]);
      } else {
        assert RestAll(cs[..n]) + [] == RestAll(cs[..n]);
      }
    }
  }

  /** Where nothing is moved, everything stays as it is. */
  lemma {:induction false} NothingMoved(e: Expr)
    requires Pushed(e) == []
    ensures Rest(e) == Some(e)
    decreases e
  {
    if e.And? {
      NothingMovedAll(e.children);
    }
  }

  lemma {:induction false} NothingMovedAll(cs: seq<Expr>)
    requires PushedAll(cs) == []
    ensures RestAll(cs) == cs
    decreases cs
  {
    if cs != [] {
      var n := |cs| - 1;
      NothingMovedAll(cs[..n]);
      NothingMoved(cs[n]);
      assert cs == cs[..n] + [cs[n]];
    }
  }

  // ---- the rule on plans ----

  datatype Plan =
    | TableGet(table: int, predicates: seq<Expr>)
    | Predicate(exprs: seq<Expr>, children: seq<Plan>)
    | Operator(kind: int, exprs: seq<Expr>, children: seq<Plan>)

  /** The predicate node is one the rule looks at: one condition over one table scan. */
  predicate Applies(p: Plan) {
    p.Predicate? && |p.children| == 1 && p.children[0].TableGet? && |p.exprs| == 1
  }

  function Residual(e: Expr): Expr {
    match Rest(e)
    case None => Constant(true)
    case Some(r) => r
  }

  /** `set_predicates` replaces what the scan had; it is called only if something was moved. */
  function ScanPredicates(had: seq<Expr>, e: Expr): seq<Expr> {
    if Pushed(e) == [] then had else Pushed(e)
  }

  function RuleOf(p: Plan): Plan {
    if Applies(p) then
      Predicate([Residual(p.exprs[0])], [TableGet(p.children[0].table, ScanPredicates(p.children[0].predicates, p.exprs[0]))])
    else p
  }

  predicate RuleChanges(p: Plan) {
    Applies(p) && Pushed(p.exprs[0]) != []
  }

  /** `PredicatePushdownRewriter::rewrite`. */
  method RewriteRule(p: Plan) returns (r: Plan, changed: bool)
    ensures r == RuleOf(p) && changed == RuleChanges(p)
  {
    r, changed := p, false;
    if !p.Predicate? {
      return;
    }
    if |p.children| != 1 {
      return;
    }
    var child := p.children[0];
    if !child.TableGet? {
      return;
    }
    if |p.exprs| != 1 {
      return;
    }
    var rest, pushed := GetExprsCanPushdown(p.exprs[0], []);
    if rest.None? {
      rest := Some(Constant(true));
    }
    assert pushed == Pushed(p.exprs[0]);
    if pushed != [] {
      changed := true;
      child := child.(predicates := pushed);
    }
    r := Predicate([rest.value], [child]);
  }

  function RewriteOf(p: Plan): Plan {
    if Applies(p) then RuleOf(p)
    else match p
      case TableGet(_, _) => p
      case Predicate(es, cs) => Predicate(es, seq(|cs|, i requires 0 <= i < |cs| => RewriteOf(cs[i])))
      case Operator(k, es, cs) => Operator(k, es, seq(|cs|, i requires 0 <= i < |cs| => RewriteOf(cs[i])))
  }

  predicate Changes(p: Plan) {
    RuleChanges(p) || (!p.TableGet? && exists i :: 0 <= i < |p.children| && Changes(p.children[i]))
  }

  /** Node `q` of the plan is where the path leads, child by child. */
  ghost predicate NodeAt(p: Plan, path: seq<nat>, q: Plan)
    decreases |path|
  {
    if path == [] then q == p
    else !p.TableGet? && path[0] < |p.children| && NodeAt(p.children[path[0]], path[1..], q)
  }

  /** A predicate node with one condition, directly over a single scan. */
  predicate OverScan(q: Plan) {
    q.Predicate? && |q.exprs| == 1 && |q.children| == 1 && q.children[0].TableGet?
  }

  /** The node has something to move. */
  ghost predicate Movable(q: Plan) {
    OverScan(q) && SomeMoves(q.exprs[0])
  }

  lemma {:induction false} ChangesUp(p: Plan, path: seq<nat>, q: Plan)
    requires NodeAt(p, path, q) && Movable(q)
    ensures Changes(p)
    decreases |path|
  {
    if path == [] {
      MovesNothing(p.exprs[0]);
    } else {
      ChangesUp(p.children[path[0]], path[1..], q);
    }
  }

  lemma {:induction false} ChangesDown(p: Plan) returns (path: seq<nat>, q: Plan)
    requires Changes(p)
    ensures NodeAt(p, path, q) && Movable(q)
    decreases p
  {
    if RuleChanges(p) {
      MovesNothing(p.exprs[0]);
      path, q := [], p;
    } else {
      var i :| 0 <= i < |p.children| && Changes(p.children[i]);
      var below;
      below, q := ChangesDown(p.children[i]);
      path := [i] + below;
      assert path[1..] == below;
    }
  }

  /** Some node of the plan has something to move. */
  ghost predicate SomeNodeMoves(p: Plan) {
    exists path: seq<nat>, q: Plan :: NodeAt(p, path, q) && Movable(q)
  }

  /** A pass reports a change if and only if some node has something to move. */
  lemma ChangesExact(p: Plan)
    ensures Changes(p) <==> SomeNodeMoves(p)
  {
    if Changes(p) {
      var path, q := ChangesDown(p);
    }
    if SomeNodeMoves(p) {
      var path: seq<nat>, q: Plan :| NodeAt(p, path, q) && Movable(q);
      ChangesUp(p, path, q);
    }
  }

  /** What the rule makes of a predicate node over a scan: the scan gets the moved comparisons instead of what
      it had, unless there are none, and the node keeps the rest. */
  lemma RuleMoves(q: Plan) returns (moved: seq<Expr>)
    requires OverScan(q)
    ensures MovesAll(q.exprs[0], moved)
    ensures RuleOf(q) == Predicate([Residual(q.exprs[0])],
      [TableGet(q.children[0].table, if moved == [] then q.children[0].predicates else moved)])
    ensures moved == [] ==> RuleOf(q) == q
    ensures OnField(q.exprs[0]) ==> RuleOf(q).exprs == [Constant(true)]
  {
    moved := Pushed(q.exprs[0]);
    PushedMoves(q.exprs[0]);
    if moved == [] {
      NothingMoved(q.exprs[0]);
    }
  }

  /** The rule is carried out at every predicate node over a scan. */
  lemma {:induction false} RewritesAll(p: Plan, path: seq<nat>, q: Plan)
    requires NodeAt(p, path, q) && OverScan(q)
    ensures NodeAt(RewriteOf(p), path, RuleOf(q))
    decreases |path|
  {
    if path != [] {
      RewritesAll(p.children[path[0]], path[1..], q);
    }
  }

  /** A measure of plans that the rule does not increase. */
  ghost function Weight(p: Plan): nat {
    if p.TableGet? then 0 else 1 + WeightAll(p.children)
  }

  ghost function WeightAll(ps: seq<Plan>): nat {
    if ps == [] then 0 else WeightAll(ps[..|ps| - 1]) + Weight(ps[|ps| - 1])
  }

  lemma {:induction false} WeightOne(ps: seq<Plan>, i: nat)
    requires i < |ps|
    ensures Weight(ps[i]) <= WeightAll(ps)
  {
    if i < |ps| - 1 {
      WeightOne(ps[..|ps| - 1], i);
    }
  }

  lemma RuleWeight(p: Plan)
    ensures Weight(RuleOf(p)) <= Weight(p)
  {
    if Applies(p) {
      assert p.children == [p.children[0]];
      assert WeightAll([p.children[0]]) == WeightAll([]) + Weight(p.children[0]);
      var scan := RuleOf(p).children[0];
      assert WeightAll([scan]) == WeightAll([]) + Weight(scan);
    }
  }

  /** `Rewriter::rewrite`: the rule at this node, then every child of the result. */
  method Rewrite(p: Plan) returns (r: Plan, changed: bool)
    ensures r == RewriteOf(p) && changed == Changes(p)
    ensures changed <==> SomeNodeMoves(p)
    decreases Weight(p)
  {
    ChangesExact(p);
    r, changed := RewriteRule(p);
    if r.TableGet? {
      return;
    }
    RuleWeight(p);
    ghost var here := r;
    var children := r.children;
    var i := 0;
    while i < |children|
      invariant 0 <= i <= |children| == |here.children|
      invariant forall k :: 0 <= k < i ==> children[k] == RewriteOf(here.children[k])
      invariant forall k :: i <= k < |children| ==> children[k] == here.children[k]
      invariant changed == (RuleChanges(p) || exists k :: 0 <= k < i && Changes(here.children[k]))
    {
      WeightOne(here.children, i);
      var child, sub := Rewrite(children[i]);
      children := children[i := child];
      changed := changed || sub;
      i := i + 1;
    }
    r := r.(children := children);
    if Applies(p) {
      assert children == here.children;
    } else {
      assert here == p;
    }
  }

  // ---- meaning of plans ----

  /** Tables, comparisons on rows, and what every other operator does with its inputs. */
  datatype World = World(
    rows: int -> seq<int>,
    truth: (Expr, int) -> bool,
    apply: (Plan, seq<seq<int>>) -> seq<int>)

  ghost function Row(w: World, row: int): Valuation {
    (e: Expr) => w.truth(e, row)
  }

  /** The rows, in order, of which all the expressions are true. */
  ghost function Filter(rows: seq<int>, es: seq<Expr>, w: World): seq<int> {
    if rows == [] then []
    else
      var n := |rows| - 1;
      Filter(rows[..n], es, w) + if All(es, Row(w, rows[n])) then [rows[n]] else []
  }

  /** The rows a plan produces. A predicate node with one child filters that child's rows; any other
      operator is an arbitrary function of its own description and its children's rows. */
  ghost function Output(p: Plan, w: World): seq<int> {
    match p
    case TableGet(t, preds) => Filter(w.rows(t), preds, w)
    case Predicate(es, cs) =>
      if |cs| == 1 then Filter(Output(cs[0], w), es, w)
      else w.apply(Predicate(es, []), seq(|cs|, i requires 0 <= i < |cs| => Output(cs[i], w)))
    case Operator(k, es, cs) =>
      w.apply(Operator(k, es, []), seq(|cs|, i requires 0 <= i < |cs| => Output(cs[i], w)))
  }

  /** Filtering twice is filtering by both. */
  lemma {:induction false} FilterTwice(rows: seq<int>, a: seq<Expr>, b: seq<Expr>, w: World)
    ensures Filter(Filter(rows, a, w), b, w) == Filter(rows, a + b, w)
  {
    if rows != [] {
      var n := |rows| - 1;
      FilterTwice(rows[..n], a, b, w);
      AllPlus(a, b, Row(w, rows[n]));
      var inner := Filter(rows[..n], a, w);
      if All(a, Row(w, rows[n])) {
        assert (inner + [rows[n]])[..|inner|] == inner;
      } else {
        assert inner + [] == inner;
      }
    }
  }

  lemma {:induction false} FilterSame(rows: seq<int>, a: seq<Expr>, b: seq<Expr>, w: World)
    requires forall v: Valuation :: All(a, v) <==> All(b, v)
    ensures Filter(rows, a, w) == Filter(rows, b, w)
  {
    if rows != [] {
      FilterSame(rows[..|rows| - 1], a, b, w);
    }
  }

  // ---- when the rule is right ----

  /** Every comparison is true except `c`. */
  ghost function AllBut(c: Expr): Valuation {
    (e: Expr) => e != c
  }

  /** Making more comparisons true makes no condition false. */
  lemma {:induction false} Monotone(e: Expr, v: Valuation, u: Valuation)
    requires Holds(e, v) && forall x: Expr :: v(x) ==> u(x)
    ensures Holds(e, u)
    decreases e
  {
    if e.And? {
      forall i | 0 <= i < |e.children|
        ensures Holds(e.children[i], u)
      {
        Monotone(e.children[i], v, u);
      }
    } else if e.Or? && e.children != [] {
      var i :| 0 <= i < |e.children| && Holds(e.children[i], v);
      Monotone(e.children[i], v, u);
    }
  }

  /** Replacing the predicates a scan already had is harmless: nothing is moved, or the condition is
      false as soon as one of the old comparisons is. A scan fresh from the planner has none. */
  ghost predicate Harmless(had: seq<Expr>, e: Expr) {
    Pushed(e) == [] || forall i :: 0 <= i < |had| ==> !Holds(e, AllBut(had[i]))
  }

  ghost predicate SameCondition(had: seq<Expr>, e: Expr) {
    forall v: Valuation :: All(had + [e], v) <==> All(ScanPredicates(had, e) + [Residual(e)], v)
  }

  lemma SplitBoth(had: seq<Expr>, e: Expr, v: Valuation)
    ensures All(had + [e], v) <==> All(had, v) && Holds(e, v)
    ensures Pushed(e) != [] ==> (All(ScanPredicates(had, e) + [Residual(e)], v) <==> Holds(e, v))
    ensures Pushed(e) == [] ==> (All(ScanPredicates(had, e) + [Residual(e)], v) <==> All(had, v) && Holds(e, v))
  {
    AllPlus(had, [e], v);
    AllPlus(ScanPredicates(had, e), [Residual(e)], v);
    SplitMeaning(e, v);
    assert All([e], v) <==> Holds([e][0], v);
    assert All([Residual(e)], v) <==> Holds([Residual(e)][0], v);
  }

  /** Scan and filter conditions together mean the same before and after the rule, for every truth of
      the comparisons, if and only if replacing the scan's predicates is harmless. */
  lemma RuleExact(had: seq<Expr>, e: Expr)
    requires forall i :: 0 <= i < |had| ==> had[i].Comparison?
    ensures SameCondition(had, e) <==> Harmless(had, e)
  {
    if Harmless(had, e) {
      forall v: Valuation
        ensures All(had + [e], v) <==> All(ScanPredicates(had, e) + [Residual(e)], v)
      {
        SplitBoth(had, e, v);
        if Pushed(e) != [] && Holds(e, v) {
          forall i | 0 <= i < |had|
            ensures Holds(had[i], v)
          {
            if !v(had[i]) {
              Monotone(e, v, AllBut(had[i]));
            }
          }
        }
      }
    } else {
      var i :| 0 <= i < |had| && Holds(e, AllBut(had[i]));
      var v := AllBut(had[i]);
      SplitBoth(had, e, v);
      assert !Holds(had[i], v);
      assert All(had + [e], v) != All(ScanPredicates(had, e) + [Residual(e)], v);
    }
  }

  /** Scans that already filter by x = 1 forget it when y = 2 is pushed into them. */
  lemma OverwrittenPredicate()
    ensures var had := [Comparison(Field("x"), 0, Value(1))];
      !SameCondition(had, Comparison(Field("y"), 0, Value(2)))
  {
    var had := [Comparison(Field("x"), 0, Value(1))];
    var e := Comparison(Field("y"), 0, Value(2));
    assert Holds(e, AllBut(had[0]));
    RuleExact(had, e);
  }

  /** Every scan below a condition it takes over is harmlessly replaced. */
  ghost predicate Ready(p: Plan) {
    && (Applies(p) ==>
      && (forall i :: 0 <= i < |p.children[0].predicates| ==> p.children[0].predicates[i].Comparison?)
      && Harmless(p.children[0].predicates, p.exprs[0]))
    && (!p.TableGet? ==> forall i :: 0 <= i < |p.children| ==> Ready(p.children[i]))
  }

  /** Plans as the planner makes them are ready: their scans have no predicates. */
  ghost predicate Planned(p: Plan) {
    match p
    case TableGet(_, preds) => preds == []
    case Predicate(_, cs) => forall i :: 0 <= i < |cs| ==> Planned(cs[i])
    case Operator(_, _, cs) => forall i :: 0 <= i < |cs| ==> Planned(cs[i])
  }

  lemma {:induction false} PlannedIsReady(p: Plan)
    requires Planned(p)
    ensures Ready(p)
    decreases p
  {
    if !p.TableGet? {
      forall i | 0 <= i < |p.children|
        ensures Ready(p.children[i])
      {
        PlannedIsReady(p.children[i]);
      }
    }
  }

  lemma RulePreserves(p: Plan, w: World)
    requires Applies(p) && Ready(p)
    ensures Output(RuleOf(p), w) == Output(p, w)
  {
    var scan, e := p.children[0], p.exprs[0];
    RuleExact(scan.predicates, e);
    FilterTwice(w.rows(scan.table), scan.predicates, [e], w);
    FilterTwice(w.rows(scan.table), ScanPredicates(scan.predicates, e), [Residual(e)], w);
    FilterSame(w.rows(scan.table), scan.predicates + [e], ScanPredicates(scan.predicates, e) + [Residual(e)], w);
    assert p.exprs == [e];
  }

  /** Rewriting preserves meaning: every plan yields the same rows in the same order, whatever the
      tables, the comparisons and the other operators are. */
  lemma {:induction false} RewritePreserves(p: Plan, w: World)
    requires Ready(p)
    ensures Output(RewriteOf(p), w) == Output(p, w)
    decreases p
  {
    if Applies(p) {
      RulePreserves(p, w);
    } else if !p.TableGet? {
      var n := |p.children|;
      var cs := seq(n, i requires 0 <= i < n => RewriteOf(p.children[i]));
      forall i | 0 <= i < n
        ensures Output(cs[i], w) == Output(p.children[i], w)
      {
        RewritePreserves(p.children[i], w);
      }
      assert seq(n, i requires 0 <= i < n => Output(cs[i], w)) == seq(n, i requires 0 <= i < n => Output(p.children[i], w));
    }
  }

  /** A second pass changes nothing and reports so. */
  lemma {:induction false} RewriteTwice(p: Plan)
    ensures RewriteOf(RewriteOf(p)) == RewriteOf(p) && !Changes(RewriteOf(p))
    decreases p
  {
    if Applies(p) {
      RestIsFixed(p.exprs[0]);
      var q := RuleOf(p);
      assert Pushed(Residual(p.exprs[0])) == [];
      assert RuleOf(q) == q;
    } else if !p.TableGet? {
      var n := |p.children|;
      var q := RewriteOf(p);
      forall i | 0 <= i < n
        ensures RewriteOf(q.children[i]) == q.children[i] && !Changes(q.children[i])
      {
        RewriteTwice(p.children[i]);
      }
      StillApart(p);
      assert seq(n, i requires 0 <= i < n => RewriteOf(q.children[i])) == q.children;
    }
  }

  /** Rewriting the children does not make the rule apply. */
  lemma StillApart(p: Plan)
    requires !Applies(p)
    ensures !Applies(RewriteOf(p))
  {
  }
}
