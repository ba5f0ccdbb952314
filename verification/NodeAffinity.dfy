/** Node affinity (internal/nodeaffinity/nodeaffinity.go) and the node an instance is meant for
    (internal/controllers/util.go). */
module NodeAffinity {
  import opened Wrappers
  import opened Labels

  const OBJECT_NAME_FIELD := "metadata.name"

  datatype Term = Term(matchExpressions: seq<Requirement>, matchFields: seq<Requirement>)

  datatype NodeAffinity = NodeAffinity(required: Option<seq<Term>>)

  datatype AntiAffinityTerm = AntiAffinityTerm(selector: Option<LabelSelector>, topologyKey: string)

  datatype Affinity = Affinity(nodeAffinity: Option<NodeAffinity>, instanceAntiAffinity: Option<seq<AntiAffinityTerm>>)

  datatype Node = Node(name: string, labels: Labels)

  // ---- Matching ------------------------------------------------------------------------------

  type Fields = map<string, string>

  /** extractNodeFields. */
  function NodeFields(node: Node): Fields {
    if node.name != "" then map[OBJECT_NAME_FIELD := node.name] else map[]
  }

  function FieldValue(fields: Fields, key: string): string {
    if key in fields then fields[key] else ""
  }

  predicate ValidField(r: Requirement) {
    (r.op.In? || r.op.NotIn?) && |r.values| == 1
  }

  predicate FieldHolds(r: Requirement, fields: Fields)
    requires ValidField(r)
  {
    (FieldValue(fields, r.key) == r.values[0]) == r.op.In?
  }

  predicate TermParses(t: Term) {
    && (forall r | r in t.matchExpressions :: ValidRequirement(r))
    && (forall r | r in t.matchFields :: ValidField(r))
  }

  /** A term without requirements matches nothing; the field requirements of a term are not
      evaluated for a node without fields. */
  predicate TermMatches(t: Term, node: Node) {
    && (t.matchExpressions != [] || t.matchFields != [])
    && TermParses(t)
    && (forall r | r in t.matchExpressions :: Holds(r, node.labels))
    && (NodeFields(node) != map[] ==> forall r | r in t.matchFields :: FieldHolds(r, NodeFields(node)))
  }

  predicate RequiredMatches(affinity: Option<Affinity>, node: Node) {
    affinity.Some? && affinity.value.nodeAffinity.Some? && affinity.value.nodeAffinity.value.required.Some? ==>
      exists t :: t in affinity.value.nodeAffinity.value.required.value && TermMatches(t, node)
  }

  /** What is required of a node, over the API's fields: nothing, or that some term has requirements,
      which are all well-formed and hold. A field other than the name is empty, and a node without a
      name fits every well-formed field requirement. */
  lemma RequiredMatchesMeans(affinity: Option<Affinity>, node: Node)
    ensures RequiredMatches(affinity, node) <==>
              (affinity.Some? && affinity.value.nodeAffinity.Some? &&
               affinity.value.nodeAffinity.value.required.Some? ==>
                var terms := affinity.value.nodeAffinity.value.required.value;
                exists k :: 0 <= k < |terms|
                  && |terms[k].matchExpressions| + |terms[k].matchFields| > 0
                  && (forall r | r in terms[k].matchExpressions :: ValidRequirement(r) && Holds(r, node.labels))
                  && (forall r | r in terms[k].matchFields ::
                        var actual := if r.key == "metadata.name" then node.name else "";
                        && |r.values| == 1
                        && match r.op
                           case In => node.name == "" || actual == r.values[0]
                           case NotIn => node.name == "" || actual != r.values[0]
                           case _ => false))
  {
    hide Holds, ValidRequirement;
    if affinity.Some? && affinity.value.nodeAffinity.Some? && affinity.value.nodeAffinity.value.required.Some? {
      var terms := affinity.value.nodeAffinity.value.required.value;
      forall k | 0 <= k < |terms|
        ensures TermMatches(terms[k], node) <==>
                  && |terms[k].matchExpressions| + |terms[k].matchFields| > 0
                  && (forall r | r in terms[k].matchExpressions :: ValidRequirement(r) && Holds(r, node.labels))
                  && (forall r | r in terms[k].matchFields ::
                        var actual := if r.key == "metadata.name" then node.name else "";
                        && |r.values| == 1
                        && match r.op
                           case In => node.name == "" || actual == r.values[0]
                           case NotIn => node.name == "" || actual != r.values[0]
                           case _ => false)
      {
        TermMatchesMeans(terms[k], node);
      }
      assert forall k | 0 <= k < |terms| :: terms[k] in terms;
    }
  }

  lemma TermMatchesMeans(t: Term, node: Node)
    ensures TermMatches(t, node) <==>
              && |t.matchExpressions| + |t.matchFields| > 0
              && (forall r | r in t.matchExpressions :: ValidRequirement(r) && Holds(r, node.labels))
              && (forall r | r in t.matchFields ::
                    var actual := if r.key == "metadata.name" then node.name else "";
                    && |r.values| == 1
                    && match r.op
                       case In => node.name == "" || actual == r.values[0]
                       case NotIn => node.name == "" || actual != r.values[0]
                       case _ => false)
  {
    hide Holds, ValidRequirement;
    var fields := NodeFields(node);
    assert node.name != "" ==> OBJECT_NAME_FIELD in fields;
    forall r
      ensures ValidField(r) && (fields != map[] ==> FieldHolds(r, fields)) <==>
                var actual := if r.key == "metadata.name" then node.name else "";
                && |r.values| == 1
                && match r.op
                   case In => node.name == "" || actual == r.values[0]
                   case NotIn => node.name == "" || actual != r.values[0]
                   case _ => false
    {
      assert fields != map[] ==> FieldValue(fields, r.key) == if r.key == "metadata.name" then node.name else "";
    }
  }

  /** A parsed selector, or the positions of the requirements that do not parse. A field selector
      is a list of requirements that must all hold. */
  datatype ParsedTerm = ParsedTerm(matchLabels: Option<Selector>, matchFields: Option<seq<Requirement>>,
                                   parseErrs: seq<nat>)

  method RequirementsAsSelector(nsm: seq<Requirement>) returns (sel: Selector, errs: seq<nat>)
    ensures errs == [] <==> forall r | r in nsm :: ValidRequirement(r)
    ensures errs == [] ==> sel == if nsm == [] then Nothing else All(nsm)
  {
    sel, errs := All([]), [];
    if nsm == [] {
      return Nothing, [];
    }
    for i := 0 to |nsm|
      invariant errs == [] <==> forall r | r in nsm[..i] :: ValidRequirement(r)
      invariant errs == [] ==> sel == All(nsm[..i])
    {
      assert nsm[..i + 1] == nsm[..i] + [nsm[i]];
      if !ValidRequirement(nsm[i]) {
        errs := errs + [i];
        assert nsm[i] in nsm[..i + 1];
      } else if errs == [] {
        sel := All(sel.reqs + [nsm[i]]);
      }
    }
    assert nsm[..|nsm|] == nsm;
  }

  method RequirementsAsFieldSelector(nsr: seq<Requirement>) returns (sel: seq<Requirement>, errs: seq<nat>)
    ensures errs == [] <==> forall r | r in nsr :: ValidField(r)
    ensures errs == [] ==> sel == nsr
  {
    sel, errs := [], [];
    for i := 0 to |nsr|
      invariant errs == [] <==> forall r | r in nsr[..i] :: ValidField(r)
      invariant errs == [] ==> sel == nsr[..i]
    {
      assert nsr[..i + 1] == nsr[..i] + [nsr[i]];
      if ValidField(nsr[i]) {
        sel := sel + [nsr[i]];
      } else {
        errs := errs + [i];
        assert nsr[i] in nsr[..i + 1];
      }
    }
    assert nsr[..|nsr|] == nsr;
  }

  method NewNodeSelectorTerm(t: Term) returns (p: ParsedTerm)
    ensures p.parseErrs == [] <==> TermParses(t)
    ensures p.parseErrs == [] ==>
              && p.matchLabels == (if t.matchExpressions == [] then None else Some(All(t.matchExpressions)))
              && p.matchFields == (if t.matchFields == [] then None else Some(t.matchFields))
  {
    p := ParsedTerm(None, None, []);
    if t.matchExpressions != [] {
      var sel, errs := RequirementsAsSelector(t.matchExpressions);
      p := ParsedTerm(Some(sel), None, errs);
    }
    if t.matchFields != [] {
      var sel, errs := RequirementsAsFieldSelector(t.matchFields);
      p := ParsedTerm(p.matchLabels, Some(sel), p.parseErrs + errs);
    }
  }

  /** A term with requirements, one of which does not parse. */
  predicate Unparsable(t: Term) {
    (t.matchExpressions != [] || t.matchFields != []) && !TermParses(t)
  }

  /** Match of a parsed node selector: terms that do not parse are passed over; `failed` are their
      positions, reported only when nothing matched. */
  method Match(affinity: Option<Affinity>, node: Node) returns (ok: bool, failed: seq<nat>)
    ensures ok <==> RequiredMatches(affinity, node)
    ensures ok ==> failed == []
    ensures !ok ==>
              var terms := affinity.value.nodeAffinity.value.required.value;
              forall k :: k in failed <==>
                && 0 <= k < |terms|
                && ((exists r :: r in terms[k].matchExpressions && !ValidRequirement(r))
                    || (exists r :: r in terms[k].matchFields && !((r.op.In? || r.op.NotIn?) && |r.values| == 1)))
  {
    if affinity.None? || affinity.value.nodeAffinity.None? || affinity.value.nodeAffinity.value.required.None? {
      return true, [];
    }
    var terms := affinity.value.nodeAffinity.value.required.value;
    failed := [];
    for i := 0 to |terms|
      invariant forall t | t in terms[..i] :: !TermMatches(t, node)
      invariant forall k :: k in failed <==> 0 <= k < i && Unparsable(terms[k])
    {
      var t := terms[i];
      assert terms[..i + 1] == terms[..i] + [t];
      if t.matchExpressions == [] && t.matchFields == [] {
        continue;
      }
      var p := NewNodeSelectorTerm(t);
      if p.parseErrs != [] {
        failed := failed + [i];
        continue;
      }
      if p.matchLabels.Some? && !Matches(p.matchLabels.value, node.labels) {
        continue;
      }
      if p.matchFields.Some? && NodeFields(node) != map[] &&
          exists r | r in t.matchFields :: !FieldHolds(r, NodeFields(node)) {
        continue;
      }
      assert t in terms && TermMatches(t, node);
      return true, [];
    }
    assert terms[..|terms|] == terms;
    ok := false;
  }

  // ---- The target node -----------------------------------------------------------------------

  datatype TargetError = NoRequiredAffinity | NoTerms | NotUnique | NoNodeName

  predicate NamesNode(r: Requirement) {
    r.key == OBJECT_NAME_FIELD && r.op.In?
  }

  /** The first requirement that names nodes, in term order. */
  function FirstNaming(terms: seq<Term>): Option<Requirement> {
    if terms == [] then None
    else if FirstNamingField(terms[0].matchFields).Some? then FirstNamingField(terms[0].matchFields)
    else FirstNaming(terms[1..])
  }

  function FirstNamingField(reqs: seq<Requirement>): Option<Requirement> {
    if reqs == [] then None
    else if NamesNode(reqs[0]) then Some(reqs[0])
    else FirstNamingField(reqs[1..])
  }

  /** GetTargetNodeName. */
  function TargetNodeName(nodeRef: Option<string>, affinity: Option<Affinity>): Result<string, TargetError> {
    if nodeRef.Some? then Ok(nodeRef.value)
    else if affinity.None? || affinity.value.nodeAffinity.None? || affinity.value.nodeAffinity.value.required.None?
    then Err(NoRequiredAffinity)
    else
      var terms := affinity.value.nodeAffinity.value.required.value;
      if terms == [] then Err(NoTerms)
      else
        var r := FirstNaming(terms);
        if r.None? then Err(NoNodeName)
        else if |r.value.values| != 1 then Err(NotUnique)
        else Ok(r.value.values[0])
  }

  /** The first requirement that names nodes is the first one in the first term that has any. */
  lemma {:induction false} FirstNamingIs(terms: seq<Term>) returns (k: nat, j: nat)
    ensures FirstNaming(terms).None? <==>
              forall t, r | t in terms && r in t.matchFields :: !(r.key == "metadata.name" && r.op == In)
    ensures FirstNaming(terms).Some? ==>
              && k < |terms| && j < |terms[k].matchFields|
              && FirstNaming(terms).value == terms[k].matchFields[j]
              && terms[k].matchFields[j].key == "metadata.name" && terms[k].matchFields[j].op == In
              && (forall t, r | t in terms[..k] && r in t.matchFields :: !(r.key == "metadata.name" && r.op == In))
              && (forall r | r in terms[k].matchFields[..j] :: !(r.key == "metadata.name" && r.op == In))
  {
    k, j := 0, 0;
    if terms != [] {
      assert terms == [terms[0]] + terms[1..];
      j := FirstNamingFieldIs(terms[0].matchFields);
      if FirstNamingField(terms[0].matchFields).None? {
        k, j := FirstNamingIs(terms[1..]);
        if FirstNaming(terms[1..]).Some? {
          assert terms[..k + 1] == [terms[0]] + terms[1..][..k];
        }
        k := k + 1;
      }
    }
  }

  lemma {:induction false} FirstNamingFieldIs(reqs: seq<Requirement>) returns (j: nat)
    ensures FirstNamingField(reqs).None? <==> forall r | r in reqs :: !(r.key == "metadata.name" && r.op == In)
    ensures FirstNamingField(reqs).Some? ==>
              && j < |reqs| && FirstNamingField(reqs).value == reqs[j]
              && reqs[j].key == "metadata.name" && reqs[j].op == In
              && (forall r | r in reqs[..j] :: !(r.key == "metadata.name" && r.op == In))
  {
    j := 0;
    if reqs != [] && !NamesNode(reqs[0]) {
      assert reqs == [reqs[0]] + reqs[1..];
      j := FirstNamingFieldIs(reqs[1..]);
      if FirstNamingField(reqs[1..]).Some? {
        assert reqs[..j + 1] == [reqs[0]] + reqs[1..][..j];
      }
      j := j + 1;
    }
  }

  /** The node an instance is meant for: the one it is bound to, or else the only value of the first
      requirement on the name of the node, in term order. */
  lemma TargetNodeNameIs(nodeRef: Option<string>, affinity: Option<Affinity>) returns (k: nat, j: nat)
    ensures nodeRef.Some? ==> TargetNodeName(nodeRef, affinity) == Ok(nodeRef.value)
    ensures nodeRef.None? ==>
              if affinity.None? || affinity.value.nodeAffinity.None? || affinity.value.nodeAffinity.value.required.None?
              then TargetNodeName(nodeRef, affinity) == Err(NoRequiredAffinity)
              else
                var terms, r := affinity.value.nodeAffinity.value.required.value, TargetNodeName(nodeRef, affinity);
                && (r == Err(NoTerms) <==> terms == [])
                && (r == Err(NoNodeName) <==>
                    && terms != []
                    && forall t, r | t in terms && r in t.matchFields :: !(r.key == "metadata.name" && r.op == In))
                && (terms != [] && r != Err(NoNodeName) ==>
                    && k < |terms| && j < |terms[k].matchFields|
                    && terms[k].matchFields[j].key == "metadata.name" && terms[k].matchFields[j].op == In
                    && (forall t, r | t in terms[..k] && r in t.matchFields ::
                        !(r.key == "metadata.name" && r.op == In))
                    && (forall r | r in terms[k].matchFields[..j] :: !(r.key == "metadata.name" && r.op == In))
                    && (|terms[k].matchFields[j].values| != 1 ==> r == Err(NotUnique))
                    && (|terms[k].matchFields[j].values| == 1 ==> r == Ok(terms[k].matchFields[j].values[0])))
  {
    k, j := 0, 0;
    hide FirstNaming;
    if affinity.Some? && affinity.value.nodeAffinity.Some? && affinity.value.nodeAffinity.value.required.Some? {
      k, j := FirstNamingIs(affinity.value.nodeAffinity.value.required.value);
    }
  }

  /** ReplaceDaemonSetInstanceNodeNameNodeAffinity. */
  function PinToNode(affinity: Option<Affinity>, nodeName: string): Affinity {
    var terms := [Term([], [Requirement(OBJECT_NAME_FIELD, In, [nodeName])])];
    if affinity.None? then Affinity(Some(NodeAffinity(Some(terms))), None)
    else affinity.value.(nodeAffinity := Some(NodeAffinity(Some(terms))))
  }

  /** Pinned to a node, an instance targets that node, matches no other named node, and keeps its
      anti-affinity. A node without a name would match as well. */
  lemma PinnedInstanceTargetsItsNode(affinity: Option<Affinity>, nodeName: string, node: Node)
    ensures TargetNodeName(None, Some(PinToNode(affinity, nodeName))) == Ok(nodeName)
    ensures RequiredMatches(Some(PinToNode(affinity, nodeName)), node) <==> node.name == nodeName || node.name == ""
    ensures affinity.Some? ==> PinToNode(affinity, nodeName).instanceAntiAffinity == affinity.value.instanceAntiAffinity
  {
    var req := Requirement(OBJECT_NAME_FIELD, In, [nodeName]);
    var term := Term([], [req]);
    var terms := PinToNode(affinity, nodeName).nodeAffinity.value.required.value;
    assert terms == [term] && FirstNamingField([req]) == Some(req);
    assert term in terms;
    assert forall t | t in terms :: t == term;
    assert req in term.matchFields && forall r | r in term.matchFields :: r == req;
    if node.name != "" {
      assert OBJECT_NAME_FIELD in NodeFields(node);
      assert FieldHolds(req, NodeFields(node)) <==> node.name == nodeName;
    }
  }
}
