/** Plans, handoffs, and the validators a consumer runs on them. */
module QualificationValidation {
  import opened Base
  import opened QualificationPlans

  datatype Reason =
    | NoUnits | BadName | IsolationMismatch | BadNodeids | NoncanonicalNodeids | UnitMembershipMismatch
    | UnitClassificationMismatch | SingletonShapeMismatch | FileShapeMismatch | UnitIdentityMismatch
    | NoncanonicalUnits | DuplicateUnitIdentity | DuplicateNodeid | UnitCountMismatch | NodeCountMismatch
    | MembershipMismatch | PlanIdentityMismatch | HandoffIdentityMismatch | ProvenanceMismatch

  function When(broken: bool, r: Reason): seq<Reason> {
    if broken then [r] else []
  }

  // ---------------------------------------------------------------- producers

  datatype Inputs = Inputs(repository: Bytes, classification: Identity, policy: Identity)

  function PlanFor(h: Hashing, inputs: Inputs, units: seq<Unit>): Plan {
    var nodes := AllNodes(units);
    var body := PlanBody(inputs.repository, h.members(Elements(nodes)), inputs.classification, inputs.policy, |units|,
        |nodes|, units);
    Plan(body, h.plan(body))
  }

  /** `_native_qualification_handoff_from_plan`. */
  function HandoffFor(h: Hashing, p: Plan): Handoff {
    var b := p.body;
    var body := HandoffBody(
      b.repository, b.membership, b.classification, b.policy, p.identity, b.units,
      Provenance(b.repository, b.membership, b.classification, b.policy, p.identity));
    Handoff(body, h.handoff(body))
  }

  datatype PlanError = EmptyOrBlank

  /** `qualification_owner_plan`: membership identities refuse an empty selection and blank nodes. */
  method QualificationOwnerPlan(h: Hashing, c: Classes, inputs: Inputs, nodes: seq<NodeId>)
    returns (r: Result<Plan, PlanError>)
    requires Classified(c, nodes) && Distinct(nodes)
    ensures r.Ok? <==> Membership(h, nodes).Some?
    ensures r.Ok? ==>
            r.value == PlanFor(h, inputs, r.value.body.units)
            && OwnerUnits(h, c, inputs.classification, nodes, r.value.body.units)
    ensures r.Ok? ==> Some(r.value.body.membership) == Membership(h, nodes)
  {
    if nodes == [] || exists n :: n in nodes && Blank(n) {
      return Err(EmptyOrBlank);
    }
    var units := BuildUnits(h, c, inputs.classification, nodes);
    AllNodesAreNodes(h, c, inputs.classification, nodes, units);
    return Ok(PlanFor(h, inputs, units));
  }

  // ---------------------------------------------------------------- validators

  function FilesOf(nodes: seq<NodeId>): set<Bytes> {
    set n | n in nodes :: NodeFile(n)
  }

  /** `_unit_header_reasons`. */
  ghost function HeaderReasons(b: UnitBody): seq<Reason> {
    When(Blank(b.name), BadName)
    + When(b.kind != ReleaseCorrectness && b.preferred != Singleton, IsolationMismatch)
  }

  /** `_unit_nodeid_reasons`. */
  ghost function NodeidReasons(h: Hashing, b: UnitBody): seq<Reason> {
    if b.nodeids == [] then [BadNodeids]
    else When(!StrictlySorted(b.nodeids), NoncanonicalNodeids)
         + When(Membership(h, b.nodeids).None?, BadNodeids)
         + When(Some(b.membership) != Membership(h, b.nodeids), UnitMembershipMismatch)
  }

  /** `_unit_shape_reasons`. */
  ghost function ShapeReasons(b: UnitBody): seq<Reason> {
    if b.nodeids == [] then []
    else if b.preferred == Singleton then When(|b.nodeids| != 1
        || b.name != KindText(b.kind) + b.nodeids[0], SingletonShapeMismatch)
    else When(b.kind != ReleaseCorrectness || FilesOf(b.nodeids) != {NodeFile(b.nodeids[0])}
              || b.name != KindText(ReleaseCorrectness) + NodeFile(b.nodeids[0]), FileShapeMismatch)
  }

  /** `_unit_reasons`. */
  ghost function UnitReasons(h: Hashing, classification: Identity, u: Unit): seq<Reason> {
    var b := u.body;
    HeaderReasons(b)
    + NodeidReasons(h, b)
    + When(b.classification != classification, UnitClassificationMismatch)
    + ShapeReasons(b)
    + When(u.identity != h.unit(b), UnitIdentityMismatch)
  }

  /** What is given for each unit, one after the other. */
  function Each(given: Unit -> seq<Reason>, units: seq<Unit>): seq<Reason> {
    if units == [] then [] else Each(given, units[..|units| - 1]) + given(units[|units| - 1])
  }

  lemma {:induction false} NothingEach(given: Unit -> seq<Reason>, units: seq<Unit>)
    ensures Each(given, units) == [] <==> forall u :: u in units ==> given(u) == []
    decreases |units|
  {
    if units != [] {
      var front, last := units[..|units| - 1], units[|units| - 1];
      NothingEach(given, front);
      assert units == front + [last];
    }
  }

  lemma {:induction false} SomethingEach(given: Unit -> seq<Reason>, units: seq<Unit>, reason: Reason)
    ensures reason in Each(given, units) <==> exists u :: u in units && reason in given(u)
    decreases |units|
  {
    if units != [] {
      var front, last := units[..|units| - 1], units[|units| - 1];
      SomethingEach(given, front, reason);
      assert units == front + [last];
    }
  }

  ghost function ForUnit(h: Hashing, classification: Identity): Unit -> seq<Reason> {
    u => UnitReasons(h, classification, u)
  }

  ghost function AllUnitReasons(h: Hashing, classification: Identity, units: seq<Unit>): seq<Reason> {
    Each(ForUnit(h, classification), units)
  }

  ghost predicate IdentitiesDistinct(units: seq<Unit>) {
    forall i, j | 0 <= i < j < |units| :: units[i].identity != units[j].identity
  }

  /** `_plan_unit_reasons`. */
  ghost function PlanUnitReasons(h: Hashing, classification: Identity, units: seq<Unit>): seq<Reason> {
    if units == [] then [NoUnits]
    else
      AllUnitReasons(h, classification, units)
      + When(!StrictlySorted(NamesOf(units)), NoncanonicalUnits)
      + When(!IdentitiesDistinct(units), DuplicateUnitIdentity)
      + When(!Distinct(AllNodes(units)), DuplicateNodeid)
  }

  /** `_plan_count_membership_reasons`. */
  ghost function CountReasons(h: Hashing, b: PlanBody): seq<Reason> {
    var nodes := AllNodes(b.units);
    When(b.unitCount != |b.units|, UnitCountMismatch)
    + When(b.nodeCount != |nodes|, NodeCountMismatch)
    + When(nodes != [] && Some(b.membership) != Membership(h, nodes), MembershipMismatch)
  }

  /** `_qualification_plan_reasons`. */
  ghost function PlanReasons(h: Hashing, p: Plan): seq<Reason> {
    PlanUnitReasons(h, p.body.classification, p.body.units)
    + CountReasons(h, p.body)
    + When(p.identity != h.plan(p.body), PlanIdentityMismatch)
  }

  /** `_handoff_unit_reasons`. */
  ghost function HandoffUnitReasons(h: Hashing, b: HandoffBody): seq<Reason> {
    if b.units == [] then [NoUnits]
    else
      AllUnitReasons(h, b.classification, b.units)
      + When(Some(b.membership) != Membership(h, AllNodes(b.units)), MembershipMismatch)
  }

  /** `validate_native_qualification_handoff`. */
  ghost function HandoffReasons(h: Hashing, x: Handoff): seq<Reason> {
    var b := x.body;
    When(x.identity != h.handoff(b), HandoffIdentityMismatch)
    + When(b.provenance != Provenance(b.repository, b.membership, b.classification, b.policy, b.plan),
        ProvenanceMismatch)
    + HandoffUnitReasons(h, b)
  }

  // ---------------------------------------------------------------- what acceptance means

  /** The nodes of all units. */
  function NodesIn(units: seq<Unit>): set<NodeId> {
    set u, n | u in units && n in u.body.nodeids :: n
  }

  /** A name, and the nodes it stands for: one node under its own name, or tests of one file under the file's. */
  ghost predicate WellShaped(b: UnitBody) {
    match b.preferred
    case Singleton => exists n :: b.nodeids == [n] && b.name == KindText(b.kind) + n
    case ByFile =>
      && b.kind == ReleaseCorrectness
      && exists f :: b.name == KindText(ReleaseCorrectness) + f && forall n :: n in b.nodeids ==> NodeFile(n) == f
  }

  /** One unit by itself. */
  ghost predicate SoundUnit(h: Hashing, classification: Identity, u: Unit) {
    var b := u.body;
    && b.nodeids != [] && (forall i, j | 0 <= i < j < |b.nodeids| :: Before(b.nodeids[i], b.nodeids[j]))
    && (forall n :: n in b.nodeids ==> exists c :: c in n && !IsSpace(c))
    && WellShaped(b) && b.classification == classification
    && b.membership == h.members(Elements(b.nodeids)) && u.identity == h.unit(b)
  }

  ghost predicate SoundUnits(h: Hashing, classification: Identity, units: seq<Unit>) {
    units != [] && forall u :: u in units ==> SoundUnit(h, classification, u)
  }

  /** A whole plan: units in name order that share no node and no identity, and the right totals. */
  ghost predicate SoundPlan(h: Hashing, p: Plan) {
    var b := p.body;
    && SoundUnits(h, b.classification, b.units)
    && (forall i, j | 0 <= i < j < |b.units| :: Before(b.units[i].body.name, b.units[j].body.name))
    && (forall i, j | 0 <= i < j < |b.units| :: b.units[i].identity != b.units[j].identity)
    && Disjoint(b.units)
    && b.unitCount == |b.units| && b.nodeCount == |NodesIn(b.units)|
    && b.membership == h.members(NodesIn(b.units)) && p.identity == h.plan(b)
  }

  /** A handoff's units share no node, and what it says twice agrees; their order is not looked at. */
  ghost predicate SoundHandoff(h: Hashing, x: Handoff) {
    var b := x.body;
    && SoundUnits(h, b.classification, b.units) && Disjoint(b.units)
    && b.membership == h.members(NodesIn(b.units)) && x.identity == h.handoff(b)
    && b.provenance == Provenance(b.repository, b.membership, b.classification, b.policy, b.plan)
  }

  lemma AscendingNodes(s: seq<Bytes>)
    ensures StrictlySorted(s) <==> forall i, j | 0 <= i < j < |s| :: Before(s[i], s[j])
  {
    forall i, j | 0 <= i < j < |s| ensures LexLess(s[i], s[j]) <==> Before(s[i], s[j]) {
      LexLessIsByteOrder(s[i], s[j]);
    }
  }

  lemma ShapeMeans(b: UnitBody)
    requires b.nodeids != []
    ensures WellShaped(b) <==>
            ShapeReasons(b) == [] && (b.kind != ReleaseCorrectness ==> b.preferred == Singleton)
  {
    var n := b.nodeids[0];
    if b.preferred == Singleton {
      assert |b.nodeids| == 1 <==> b.nodeids == [n];
    } else {
      FilesAgree(b.nodeids);
      if f :| b.name == KindText(ReleaseCorrectness) + f && forall m :: m in b.nodeids ==> NodeFile(m) == f {
        assert NodeFile(n) == f;
      }
    }
  }

  lemma FilesAgree(nodes: seq<NodeId>)
    requires nodes != []
    ensures FilesOf(nodes) == {NodeFile(nodes[0])} <==> forall n :: n in nodes ==> NodeFile(n) == NodeFile(nodes[0])
  {
    assert nodes[0] in nodes;
    if FilesOf(nodes) == {NodeFile(nodes[0])} {
      forall n | n in nodes ensures NodeFile(n) == NodeFile(nodes[0]) {
        assert NodeFile(n) in FilesOf(nodes);
      }
    }
  }

  lemma UnitReasonsMean(h: Hashing, classification: Identity, u: Unit)
    ensures UnitReasons(h, classification, u) == [] <==> SoundUnit(h, classification, u)
  {
    var b := u.body;
    if b.nodeids != [] {
      AscendingNodes(b.nodeids);
      ShapeMeans(b);
      if StrictlySorted(b.nodeids) {
        SortedIsDistinct(b.nodeids);
      }
      if WellShaped(b) {
        ShapedIsNamed(b);
      }
    }
  }

  lemma ShapedIsNamed(b: UnitBody)
    requires WellShaped(b)
    ensures !Blank(b.name)
  {
    if b.preferred == Singleton {
      var n :| b.nodeids == [n] && b.name == KindText(b.kind) + n;
      NamesAreNotBlank(b.kind, n);
    } else {
      var f :| b.name == KindText(ReleaseCorrectness) + f && forall n :: n in b.nodeids ==> NodeFile(n) == f;
      NamesAreNotBlank(ReleaseCorrectness, f);
    }
  }

  lemma AllUnitReasonsMean(h: Hashing, classification: Identity, units: seq<Unit>)
    ensures AllUnitReasons(h, classification, units) == [] <==>
            forall u :: u in units ==> SoundUnit(h, classification, u)
  {
    NothingEach(ForUnit(h, classification), units);
    forall u ensures ForUnit(h, classification)(u) == [] <==> SoundUnit(h, classification, u) {
      UnitReasonsMean(h, classification, u);
    }
  }

  lemma {:induction false} DistinctMeansDisjoint(units: seq<Unit>)
    requires Distinct(AllNodes(units))
    ensures Disjoint(units)
    decreases |units|
  {
    if units != [] {
      var front, last := units[..|units| - 1], units[|units| - 1];
      var a, b := AllNodes(front), last.body.nodeids;
      DistinctParts(a, b);
      DistinctMeansDisjoint(front);
      forall i, n | 0 <= i < |front| && n in units[i].body.nodeids ensures n !in b {
        AllNodesIn(front, n);
        assert front[i] == units[i];
      }
    }
  }

  lemma DistinctParts(a: seq<NodeId>, b: seq<NodeId>)
    requires Distinct(a + b)
    ensures Distinct(a) && Distinct(b) && forall n :: n in a ==> n !in b
  {
    forall i, j | 0 <= i < j < |a| ensures a[i] != a[j] {
      assert (a + b)[i] == a[i] && (a + b)[j] == a[j];
    }
    forall i, j | 0 <= i < j < |b| ensures b[i] != b[j] {
      assert (a + b)[|a| + i] == b[i] && (a + b)[|a| + j] == b[j];
    }
    forall i, j | 0 <= i < |a| && 0 <= j < |b| ensures a[i] != b[j] {
      assert (a + b)[i] == a[i] && (a + b)[|a| + j] == b[j];
    }
  }

  /** For sound units, a list of their nodes without repetition is what disjointness means. */
  lemma NodesOfSoundUnits(h: Hashing, classification: Identity, units: seq<Unit>)
    requires SoundUnits(h, classification, units)
    ensures Distinct(AllNodes(units)) <==> Disjoint(units)
    ensures Elements(AllNodes(units)) == NodesIn(units) && AllNodes(units) != []
    ensures forall n :: n in AllNodes(units) ==> !Blank(n)
  {
    forall u | u in units ensures StrictlySorted(u.body.nodeids) {
      AscendingNodes(u.body.nodeids);
    }
    if Disjoint(units) {
      AllNodesDistinct(units);
    }
    if Distinct(AllNodes(units)) {
      DistinctMeansDisjoint(units);
    }
    forall n ensures n in AllNodes(units) <==> n in NodesIn(units) {
      AllNodesIn(units, n);
      if u :| u in units && n in u.body.nodeids {
        var i :| 0 <= i < |units| && units[i] == u;
      }
    }
    assert units[0] in units && units[0].body.nodeids[0] in units[0].body.nodeids;
    assert units[0].body.nodeids[0] in NodesIn(units);
  }

  lemma {:induction false} DistinctSize(s: seq<NodeId>)
    requires Distinct(s)
    ensures |Elements(s)| == |s|
    decreases |s|
  {
    if s == [] {
      assert Elements(s) == {};
    } else {
      var front, last := s[..|s| - 1], s[|s| - 1];
      DistinctSize(front);
      assert s == front + [last];
      ElementsMore(front, last);
    }
  }

  lemma PlanReasonsNone(h: Hashing, p: Plan)
    ensures var b := p.body;
            PlanReasons(h, p) == [] <==>
            && b.units != [] && AllUnitReasons(h, b.classification, b.units) == []
            && StrictlySorted(NamesOf(b.units)) && IdentitiesDistinct(b.units) && Distinct(AllNodes(b.units))
            && b.unitCount == |b.units| && b.nodeCount == |AllNodes(b.units)|
            && (AllNodes(b.units) == [] || Some(b.membership) == Membership(h, AllNodes(b.units)))
            && p.identity == h.plan(b)
  {
  }

  /** The plan validator has no reasons exactly for sound plans. */
  lemma AcceptedPlanIsSound(h: Hashing, p: Plan)
    ensures PlanReasons(h, p) == [] <==> SoundPlan(h, p)
  {
    var b := p.body;
    PlanReasonsNone(h, p);
    AllUnitReasonsMean(h, b.classification, b.units);
    AscendingNames(b.units);
    if SoundUnits(h, b.classification, b.units) {
      NodesOfSoundUnits(h, b.classification, b.units);
      if Distinct(AllNodes(b.units)) {
        DistinctSize(AllNodes(b.units));
      }
    }
  }

  lemma AscendingNames(units: seq<Unit>)
    ensures StrictlySorted(NamesOf(units)) <==>
            forall i, j | 0 <= i < j < |units| :: Before(units[i].body.name, units[j].body.name)
  {
    var names := NamesOf(units);
    AscendingNodes(names);
    forall i, j | 0 <= i < j < |units| && StrictlySorted(names) ensures Before(units[i].body.name, units[j].body.name) {
      assert Before(names[i], names[j]);
    }
  }

  lemma HandoffReasonsNone(h: Hashing, x: Handoff)
    ensures var b := x.body;
            HandoffReasons(h, x) == [] <==>
            && b.units != [] && AllUnitReasons(h, b.classification, b.units) == []
            && Some(b.membership) == Membership(h, AllNodes(b.units)) && x.identity == h.handoff(b)
            && b.provenance == Provenance(b.repository, b.membership, b.classification, b.policy, b.plan)
  {
  }

  /** The handoff validator has no reasons exactly for sound handoffs. */
  lemma AcceptedHandoffIsSound(h: Hashing, x: Handoff)
    ensures HandoffReasons(h, x) == [] <==> SoundHandoff(h, x)
  {
    var b := x.body;
    HandoffReasonsNone(h, x);
    AllUnitReasonsMean(h, b.classification, b.units);
    if SoundUnits(h, b.classification, b.units) {
      NodesOfSoundUnits(h, b.classification, b.units);
    }
  }

  // ---------------------------------------------------------------- what each reason says

  /** What a reason says about a unit; reasons about whole plans say nothing of one. */
  ghost predicate UnitFault(h: Hashing, classification: Identity, u: Unit, reason: Reason) {
    var b := u.body;
    match reason
    case BadName => forall c :: c in b.name ==> IsSpace(c)
    case IsolationMismatch => b.kind != ReleaseCorrectness && b.preferred == ByFile
    case BadNodeids => Membership(h, b.nodeids).None?
    case NoncanonicalNodeids => !StrictlySorted(b.nodeids)
    case UnitMembershipMismatch => b.nodeids != [] && Some(b.membership) != Membership(h, b.nodeids)
    case UnitClassificationMismatch => b.classification != classification
    case SingletonShapeMismatch => b.nodeids != [] && b.preferred == Singleton && !WellShaped(b)
    case FileShapeMismatch => b.nodeids != [] && b.preferred == ByFile && !WellShaped(b)
    case UnitIdentityMismatch => u.identity != h.unit(b)
    case _ => false
  }

  lemma InConcat(a: seq<Reason>, b: seq<Reason>, reason: Reason)
    ensures reason in a + b <==> reason in a || reason in b
  {
  }

  lemma NodeidReasonsNamed(h: Hashing, b: UnitBody, reason: Reason)
    ensures reason in NodeidReasons(h, b) <==>
            match reason
            case BadNodeids => Membership(h, b.nodeids).None?
            case NoncanonicalNodeids => !StrictlySorted(b.nodeids)
            case UnitMembershipMismatch => b.nodeids != [] && Some(b.membership) != Membership(h, b.nodeids)
            case _ => false
  {
  }

  lemma ShapeReasonsNamed(b: UnitBody, reason: Reason)
    ensures reason in ShapeReasons(b) && reason != IsolationMismatch ==>
              b.nodeids != [] && !WellShaped(b)
              && reason == if b.preferred == Singleton then SingletonShapeMismatch else FileShapeMismatch
    ensures b.nodeids != [] && !WellShaped(b) ==>
              (if b.preferred == Singleton then SingletonShapeMismatch else FileShapeMismatch) in ShapeReasons(b)
  {
    if b.nodeids != [] {
      ShapeMeans(b);
    }
  }

  /** A reason is given about a unit exactly if it is true of it. */
  lemma UnitReasonsNamed(h: Hashing, classification: Identity, u: Unit, reason: Reason)
    ensures reason in UnitReasons(h, classification, u) <==> UnitFault(h, classification, u, reason)
  {
    var b := u.body;
    var header, nodeids, shape := HeaderReasons(b), NodeidReasons(h, b), ShapeReasons(b);
    var cls := When(b.classification != classification, UnitClassificationMismatch);
    var identity := When(u.identity != h.unit(b), UnitIdentityMismatch);
    assert UnitReasons(h, classification, u) == (((header + nodeids) + cls) + shape) + identity;
    InConcat(((header + nodeids) + cls) + shape, identity, reason);
    InConcat((header + nodeids) + cls, shape, reason);
    InConcat(header + nodeids, cls, reason);
    InConcat(header, nodeids, reason);
    HeaderReasonsNamed(b, reason);
    NodeidReasonsNamed(h, b, reason);
    ShapeReasonsNamed(b, reason);
  }

  lemma HeaderReasonsNamed(b: UnitBody, reason: Reason)
    ensures reason in HeaderReasons(b) <==>
            match reason
            case BadName => forall c :: c in b.name ==> IsSpace(c)
            case IsolationMismatch => b.kind != ReleaseCorrectness && b.preferred == ByFile
            case _ => false
  {
  }

  lemma AllUnitReasonsNamed(h: Hashing, classification: Identity, units: seq<Unit>, reason: Reason)
    ensures reason in AllUnitReasons(h, classification, units) <==>
            exists u :: u in units && UnitFault(h, classification, u, reason)
  {
    SomethingEach(ForUnit(h, classification), units, reason);
    forall u ensures reason in ForUnit(h, classification)(u) <==> UnitFault(h, classification, u, reason) {
      UnitReasonsNamed(h, classification, u, reason);
    }
  }

  /** What a reason says about a plan: that it is a fault of some unit, or of the plan as a whole. */
  ghost predicate PlanFault(h: Hashing, p: Plan, reason: Reason) {
    var b := p.body;
    var nodes := AllNodes(b.units);
    match reason
    case NoUnits => b.units == []
    case NoncanonicalUnits => !StrictlySorted(NamesOf(b.units))
    case DuplicateUnitIdentity => !IdentitiesDistinct(b.units)
    case DuplicateNodeid => !Distinct(nodes)
    case UnitCountMismatch => b.unitCount != |b.units|
    case NodeCountMismatch => b.nodeCount != |nodes|
    case MembershipMismatch => nodes != [] && Some(b.membership) != Membership(h, nodes)
    case PlanIdentityMismatch => p.identity != h.plan(b)
    case _ => exists u :: u in b.units && UnitFault(h, b.classification, u, reason)
  }

  lemma PlanUnitReasonsNamed(h: Hashing, classification: Identity, units: seq<Unit>, reason: Reason)
    ensures reason in PlanUnitReasons(h, classification, units) <==>
            match reason
            case NoUnits => units == []
            case NoncanonicalUnits => !StrictlySorted(NamesOf(units))
            case DuplicateUnitIdentity => !IdentitiesDistinct(units)
            case DuplicateNodeid => !Distinct(AllNodes(units))
            case _ => exists u :: u in units && UnitFault(h, classification, u, reason)
  {
    AllUnitReasonsNamed(h, classification, units, reason);
    var all := AllUnitReasons(h, classification, units);
    var names, ids := When(!StrictlySorted(NamesOf(units)), NoncanonicalUnits),
        When(!IdentitiesDistinct(units), DuplicateUnitIdentity);
    InConcat(all, names, reason);
    InConcat(all + names, ids, reason);
    InConcat(all + names + ids, When(!Distinct(AllNodes(units)), DuplicateNodeid), reason);
  }

  /** A reason is given about a plan exactly if it is true of it. */
  lemma PlanReasonsNamed(h: Hashing, p: Plan, reason: Reason)
    ensures reason in PlanReasons(h, p) <==> PlanFault(h, p, reason)
  {
    var b := p.body;
    var units, counts := PlanUnitReasons(h, b.classification, b.units), CountReasons(h, b);
    var identity := When(p.identity != h.plan(b), PlanIdentityMismatch);
    assert PlanReasons(h, p) == (units + counts) + identity;
    InConcat(units + counts, identity, reason);
    InConcat(units, counts, reason);
    PlanUnitReasonsNamed(h, b.classification, b.units, reason);
    CountReasonsNamed(h, b, reason);
  }

  lemma CountReasonsNamed(h: Hashing, b: PlanBody, reason: Reason)
    ensures reason in CountReasons(h, b) <==>
            match reason
            case UnitCountMismatch => b.unitCount != |b.units|
            case NodeCountMismatch => b.nodeCount != |AllNodes(b.units)|
            case MembershipMismatch =>
              AllNodes(b.units) != [] && Some(b.membership) != Membership(h, AllNodes(b.units))
            case _ => false
  {
  }

  /** And about a handoff. */
  lemma HandoffReasonsNamed(h: Hashing, x: Handoff, reason: Reason)
    ensures var b := x.body;
            reason in HandoffReasons(h, x) <==>
            match reason
            case NoUnits => b.units == []
            case MembershipMismatch => b.units != [] && Some(b.membership) != Membership(h, AllNodes(b.units))
            case HandoffIdentityMismatch => x.identity != h.handoff(b)
            case ProvenanceMismatch =>
              b.provenance != Provenance(b.repository, b.membership, b.classification, b.policy, b.plan)
            case _ => exists u :: u in b.units && UnitFault(h, b.classification, u, reason)
  {
    var b := x.body;
    var identity := When(x.identity != h.handoff(b), HandoffIdentityMismatch);
    var provenance := When(b.provenance != Provenance(b.repository, b.membership, b.classification, b.policy, b.plan),
        ProvenanceMismatch);
    var units := HandoffUnitReasons(h, b);
    assert HandoffReasons(h, x) == (identity + provenance) + units;
    InConcat(identity + provenance, units, reason);
    InConcat(identity, provenance, reason);
    HandoffUnitReasonsNamed(h, b, reason);
  }

  lemma HandoffUnitReasonsNamed(h: Hashing, b: HandoffBody, reason: Reason)
    ensures reason in HandoffUnitReasons(h, b) <==>
            match reason
            case NoUnits => b.units == []
            case MembershipMismatch => b.units != [] && Some(b.membership) != Membership(h, AllNodes(b.units))
            case _ => exists u :: u in b.units && UnitFault(h, b.classification, u, reason)
  {
    var all := AllUnitReasons(h, b.classification, b.units);
    AllUnitReasonsNamed(h, b.classification, b.units, reason);
    InConcat(all, When(Some(b.membership) != Membership(h, AllNodes(b.units)), MembershipMismatch), reason);
  }

  // ---------------------------------------------------------------- acceptance

  /** Two different units of a plan with one identity: a SHA-256 collision between their payloads. */
  ghost predicate UnitsCollide(h: Hashing, units: seq<Unit>) {
    exists u, v :: u in units && v in units && u.body != v.body && h.unit(u.body) == h.unit(v.body)
  }

  lemma OwnerUnitShape(h: Hashing, c: Classes, classification: Identity, nodes: seq<NodeId>, u: Unit)
    requires Classified(c, nodes) && OwnerUnit(h, c, classification, nodes, u)
    ensures ShapeReasons(u.body) == []
  {
    var m :| m in nodes && m in c && u == UnitOf(h, c, classification, nodes, m);
    var b := u.body;
    UnitNodes(h, c, classification, nodes, u, m);
    GroupOf(c, nodes, m);
    UnitNodes(h, c, classification, nodes, u, b.nodeids[0]);
    if b.preferred == Singleton {
      StrictlySortedUnique(b.nodeids, [m]);
    } else {
      forall n | n in b.nodeids ensures NodeFile(n) == NodeFile(m) {
        assert n in FileNodes(c, nodes, NodeFile(m));
      }
      assert b.nodeids[0] in b.nodeids;
      assert FilesOf(b.nodeids) == {NodeFile(m)};
    }
  }

  lemma NamesAreNotBlank(k: Kind, rest: Bytes)
    ensures !Blank(KindText(k) + rest)
  {
    FirstLetter(k);
    assert (KindText(k) + rest)[0] == KindText(k)[0] && (KindText(k) + rest)[0] in KindText(k) + rest;
  }

  /** The unit validator finds nothing wrong with an owner unit. */
  lemma OwnerUnitAccepted(h: Hashing, c: Classes, classification: Identity, nodes: seq<NodeId>, u: Unit)
    requires Classified(c, nodes) && Membership(h, nodes).Some? && OwnerUnit(h, c, classification, nodes, u)
    ensures UnitReasons(h, classification, u) == []
  {
    var m :| m in nodes && m in c && u == UnitOf(h, c, classification, nodes, m);
    NamesAreNotBlank(c[m].kind, if c[m].preferred == ByFile then NodeFile(m) else m);
    UnitNodes(h, c, classification, nodes, u, m);
    OwnerUnitShape(h, c, classification, nodes, u);
    SortedIsDistinct(u.body.nodeids);
    forall n | n in u.body.nodeids ensures n in nodes {
      UnitNodes(h, c, classification, nodes, u, n);
    }
    assert Elements(u.body.nodeids) == Group(c, nodes, u.body.name);
  }

  /** Different owner units have the same identity only by a collision. */
  lemma IdentitiesUnlessCollision(h: Hashing, c: Classes, classification: Identity, nodes: seq<NodeId>,
      units: seq<Unit>)
    requires OwnerUnits(h, c, classification, nodes, units)
    ensures IdentitiesDistinct(units) <==> !UnitsCollide(h, units)
  {
    forall u | u in units ensures u.identity == h.unit(u.body) {
      assert OwnerUnit(h, c, classification, nodes, u);
    }
    forall i, j | 0 <= i < j < |units| ensures units[i].body != units[j].body {
      assert NamesOf(units)[i] == units[i].body.name && NamesOf(units)[j] == units[j].body.name;
      LexTotal(units[i].body.name, units[j].body.name);
    }
    if !IdentitiesDistinct(units) {
      var i, j :| 0 <= i < j < |units| && units[i].identity == units[j].identity;
      assert units[i] in units && units[j] in units;
    }
    if UnitsCollide(h, units) {
      var u, v :| u in units && v in units && u.body != v.body && h.unit(u.body) == h.unit(v.body);
      var i :| 0 <= i < |units| && units[i] == u;
      var j :| 0 <= j < |units| && units[j] == v;
      assert units[i].identity == units[j].identity && i != j;
      assert i < j || j < i;
    }
  }

  /** What the list checks of both validators see in owner units. */
  lemma OwnerUnitsAccepted(h: Hashing, c: Classes, classification: Identity, nodes: seq<NodeId>, units: seq<Unit>)
    requires Classified(c, nodes) && Membership(h, nodes).Some? && OwnerUnits(h, c, classification, nodes, units)
    ensures AllUnitReasons(h, classification, units) == [] && units != [] && StrictlySorted(NamesOf(units))
    ensures Distinct(AllNodes(units)) && Membership(h, AllNodes(units)) == Some(h.members(Elements(AllNodes(units))))
  {
    AllNodesAreNodes(h, c, classification, nodes, units);
    forall u | u in units ensures UnitReasons(h, classification, u) == [] {
      OwnerUnitAccepted(h, c, classification, nodes, u);
    }
    NothingEach(ForUnit(h, classification), units);
    assert forall n :: n in AllNodes(units) <==> n in Elements(AllNodes(units));
    assert nodes[0] in Elements(nodes) && forall n :: n in Elements(nodes) ==> n in nodes;
  }

  lemma ProducedHandoffIsAccepted(h: Hashing, c: Classes, inputs: Inputs, nodes: seq<NodeId>, units: seq<Unit>)
    requires Classified(c, nodes) && Membership(h, nodes).Some? && OwnerUnits(h, c, inputs.classification, nodes, units)
    ensures HandoffReasons(h, HandoffFor(h, PlanFor(h, inputs, units))) == []
  {
    OwnerUnitsAccepted(h, c, inputs.classification, nodes, units);
  }

  /**
   A plan built for distinct, allowed, non-blank nodes is accepted with no reasons exactly when
   no two of its units collide; the handoff made from it is accepted in any case.
   */
  lemma ProducedIsAccepted(h: Hashing, c: Classes, inputs: Inputs, nodes: seq<NodeId>, units: seq<Unit>)
    requires Classified(c, nodes) && Membership(h, nodes).Some? && OwnerUnits(h, c, inputs.classification, nodes, units)
    ensures PlanReasons(h, PlanFor(h, inputs, units)) == [] <==> !UnitsCollide(h, units)
    ensures HandoffReasons(h, HandoffFor(h, PlanFor(h, inputs, units))) == []
  {
    ProducedHandoffIsAccepted(h, c, inputs, nodes, units);
    OwnerUnitsAccepted(h, c, inputs.classification, nodes, units);
    IdentitiesUnlessCollision(h, c, inputs.classification, nodes, units);
    assert PlanUnitReasons(h, inputs.classification, units) == When(!IdentitiesDistinct(units), DuplicateUnitIdentity);
  }
}
