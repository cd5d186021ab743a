/** ext/vulnsrc/{rhel/rhel,oracle/oracle}.go: `getPossibilities` turns a tree of OVAL criteria into
    its disjunctive normal form. The two files differ in the criterions they ignore. */
module Oval {

  datatype Criterion = Criterion(comment: string)

  datatype Criteria = Criteria(operator: string, criterias: seq<Criteria>, criterions: seq<Criterion>)

  type Possibility = seq<Criterion>

  /** The two sources of definitions. */
  datatype Source = RHEL | Oracle

  /** A source ignores the criterions whose comment contains one of these. */
  function IgnoredComments(source: Source): seq<string> {
    match source
    case RHEL =>
      [" is signed with Red Hat ", " Client is installed", " Workstation is installed", " ComputeNode is installed"]
    case Oracle => [" is signed with the Oracle Linux", ".ksplice1."]
  }

  /** `strings.Contains`. */
  predicate Contains(s: string, part: string) {
    exists i :: 0 <= i <= |s| && part <= s[i..]
  }

  predicate Ignored(ignored: seq<string>, c: Criterion) {
    exists i :: 0 <= i < |ignored| && Contains(c.comment, ignored[i])
  }

  lemma ContainsIs(s: string, part: string)
    ensures Contains(s, part) <==> exists l, r :: s == l + part + r
  {
    if i :| 0 <= i <= |s| && part <= s[i..] {
      assert s == s[..i] + part + s[i + |part|..];
    }
    if l, r :| s == l + part + r {
      assert s[|l|..] == part + r;
    }
  }

  /** The criterions that each source ignores, by what their comments contain. */
  lemma IgnoredSpelledOut(c: Criterion)
    ensures Ignored(IgnoredComments(RHEL), c) <==>
            || Contains(c.comment, " is signed with Red Hat ") || Contains(c.comment, " Client is installed")
            || Contains(c.comment, " Workstation is installed") || Contains(c.comment, " ComputeNode is installed")
    ensures Ignored(IgnoredComments(Oracle), c) <==>
            Contains(c.comment, " is signed with the Oracle Linux") || Contains(c.comment, ".ksplice1.")
  {
    var rhel, oracle := IgnoredComments(RHEL), IgnoredComments(Oracle);
    assert rhel[0] == " is signed with Red Hat " && rhel[1] == " Client is installed";
    assert rhel[2] == " Workstation is installed" && rhel[3] == " ComputeNode is installed";
    assert oracle[0] == " is signed with the Oracle Linux" && oracle[1] == ".ksplice1.";
  }

  // ----- What the tree and its normal form mean

  /** Ignored criterions are dropped, AND is all, OR is any, another operator never holds. */
  predicate TreeHolds(ignored: seq<string>, node: Criteria, truth: Criterion -> bool) {
    if node.operator == "AND" then
      && (forall i :: 0 <= i < |node.criterias| ==> TreeHolds(ignored, node.criterias[i], truth))
      && (forall i :: 0 <= i < |node.criterions| && !Ignored(ignored, node.criterions[i]) ==> truth(node.criterions[i]))
    else if node.operator == "OR" then
      || (exists i :: 0 <= i < |node.criterias| && TreeHolds(ignored, node.criterias[i], truth))
      || (exists i :: 0 <= i < |node.criterions| && !Ignored(ignored, node.criterions[i]) && truth(node.criterions[i]))
    else false
  }

  predicate AllHold(p: Possibility, truth: Criterion -> bool) {
    forall i :: 0 <= i < |p| ==> truth(p[i])
  }

  predicate SomeHolds(ps: seq<Possibility>, truth: Criterion -> bool) {
    exists i :: 0 <= i < |ps| && AllHold(ps[i], truth)
  }

  // ----- The normal form

  function Kept(ignored: seq<string>, cs: seq<Criterion>): seq<Criterion> {
    if cs == [] then []
    else
      var rest, c := Kept(ignored, cs[..|cs| - 1]), cs[|cs| - 1];
      if Ignored(ignored, c) then rest else rest + [c]
  }

  function Singles(cs: seq<Criterion>): seq<Possibility> {
    seq(|cs|, i requires 0 <= i < |cs| => [cs[i]])
  }

  function OwnPossibilities(ignored: seq<string>, node: Criteria): seq<Possibility> {
    var kept := Kept(ignored, node.criterions);
    if node.operator == "AND" then [kept] else if node.operator == "OR" then Singles(kept) else []
  }

  /** One possibility followed by each of a group. */
  function Extend(p: Possibility, group: seq<Possibility>): seq<Possibility> {
    seq(|group|, i requires 0 <= i < |group| => p + group[i])
  }

  function Cross(ps: seq<Possibility>, group: seq<Possibility>): seq<Possibility> {
    if ps == [] then [] else Cross(ps[..|ps| - 1], group) + Extend(ps[|ps| - 1], group)
  }

  function Conjunction(groups: seq<seq<Possibility>>): seq<Possibility>
    requires groups != []
  {
    if |groups| == 1 then groups[0] else Cross(Conjunction(groups[..|groups| - 1]), groups[|groups| - 1])
  }

  function Disjunction(groups: seq<seq<Possibility>>): seq<Possibility> {
    if groups == [] then [] else Disjunction(groups[..|groups| - 1]) + groups[|groups| - 1]
  }

  function GroupsOf(ignored: seq<string>, nodes: seq<Criteria>): (r: seq<seq<Possibility>>)
    ensures |r| == |nodes|
    decreases nodes, 0
  {
    if nodes == [] then [] else GroupsOf(ignored, nodes[..|nodes| - 1]) + [Possibilities(ignored, nodes[|nodes| - 1])]
  }

  function Groups(ignored: seq<string>, node: Criteria): seq<seq<Possibility>>
    decreases node, 0
  {
    GroupsOf(ignored, node.criterias) + if |node.criterions| > 0 then [OwnPossibilities(ignored, node)] else []
  }

  function Possibilities(ignored: seq<string>, node: Criteria): seq<Possibility>
    decreases node, 1
  {
    if node.criterias == [] then OwnPossibilities(ignored, node)
    else
      var groups := Groups(ignored, node);
      if node.operator == "AND" then Conjunction(groups)
      else if node.operator == "OR" then Disjunction(groups)
      else []
  }

  // ----- The normal form means what the tree means

  lemma {:induction false} KeptIs(ignored: seq<string>, cs: seq<Criterion>)
    ensures forall c :: c in Kept(ignored, cs) <==> c in cs && !Ignored(ignored, c)
  {
    if cs != [] {
      KeptIs(ignored, cs[..|cs| - 1]);
      assert cs == cs[..|cs| - 1] + [cs[|cs| - 1]];
    }
  }

  lemma OwnPossibilitiesMeaning(ignored: seq<string>, node: Criteria, truth: Criterion -> bool)
    ensures SomeHolds(OwnPossibilities(ignored, node), truth) <==> TreeHolds(ignored, node.(criterias := []), truth)
  {
    var kept := Kept(ignored, node.criterions);
    KeptIs(ignored, node.criterions);
    if node.operator == "AND" {
      assert [kept][0] == kept;
      assert AllHold(kept, truth) <==> forall c :: c in kept ==> truth(c);
    } else if node.operator == "OR" {
      forall i | 0 <= i < |kept| ensures AllHold(Singles(kept)[i], truth) <==> truth(kept[i]) {
        assert Singles(kept)[i] == [kept[i]] && [kept[i]][0] == kept[i];
      }
      if i :| 0 <= i < |kept| && AllHold(Singles(kept)[i], truth) {
        assert kept[i] in node.criterions;
      }
      if i :| 0 <= i < |node.criterions| && !Ignored(ignored, node.criterions[i]) && truth(node.criterions[i]) {
        assert node.criterions[i] in kept;
        var k :| 0 <= k < |kept| && kept[k] == node.criterions[i];
        assert AllHold(Singles(kept)[k], truth);
      }
    }
  }

  lemma AllHoldOfConcat(p: Possibility, q: Possibility, truth: Criterion -> bool)
    ensures AllHold(p + q, truth) <==> AllHold(p, truth) && AllHold(q, truth)
  {
    assert forall i :: 0 <= i < |p| ==> (p + q)[i] == p[i];
    assert forall i :: 0 <= i < |q| ==> (p + q)[|p| + i] == q[i];
  }

  lemma SomeHoldsOfConcat(a: seq<Possibility>, b: seq<Possibility>, truth: Criterion -> bool)
    ensures SomeHolds(a + b, truth) <==> SomeHolds(a, truth) || SomeHolds(b, truth)
  {
    assert forall i :: 0 <= i < |a| ==> (a + b)[i] == a[i];
    assert forall i :: 0 <= i < |b| ==> (a + b)[|a| + i] == b[i];
  }

  lemma ExtendMeaning(p: Possibility, group: seq<Possibility>, truth: Criterion -> bool)
    ensures SomeHolds(Extend(p, group), truth) <==> AllHold(p, truth) && SomeHolds(group, truth)
  {
    forall i | 0 <= i < |group|
      ensures AllHold(Extend(p, group)[i], truth) <==> AllHold(p, truth) && AllHold(group[i], truth)
    {
      AllHoldOfConcat(p, group[i], truth);
    }
  }

  lemma {:induction false} CrossMeaning(ps: seq<Possibility>, group: seq<Possibility>, truth: Criterion -> bool)
    ensures SomeHolds(Cross(ps, group), truth) <==> SomeHolds(ps, truth) && SomeHolds(group, truth)
  {
    if ps != [] {
      var init, p := ps[..|ps| - 1], ps[|ps| - 1];
      CrossMeaning(init, group, truth);
      ExtendMeaning(p, group, truth);
      SomeHoldsOfConcat(Cross(init, group), Extend(p, group), truth);
      assert ps == init + [p] && [p][0] == p;
      SomeHoldsOfConcat(init, [p], truth);
      assert SomeHolds([p], truth) <==> AllHold(p, truth);
    }
  }

  lemma {:induction false} ConjunctionMeaning(groups: seq<seq<Possibility>>, truth: Criterion -> bool)
    requires groups != []
    ensures SomeHolds(Conjunction(groups), truth) <==> forall i :: 0 <= i < |groups| ==> SomeHolds(groups[i], truth)
    decreases |groups|
  {
    if |groups| > 1 {
      var init := groups[..|groups| - 1];
      ConjunctionMeaning(init, truth);
      CrossMeaning(Conjunction(init), groups[|groups| - 1], truth);
      assert forall i :: 0 <= i < |init| ==> init[i] == groups[i];
    }
  }

  lemma {:induction false} DisjunctionMeaning(groups: seq<seq<Possibility>>, truth: Criterion -> bool)
    ensures SomeHolds(Disjunction(groups), truth) <==> exists i :: 0 <= i < |groups| && SomeHolds(groups[i], truth)
    decreases |groups|
  {
    if groups != [] {
      var init := groups[..|groups| - 1];
      DisjunctionMeaning(init, truth);
      SomeHoldsOfConcat(Disjunction(init), groups[|groups| - 1], truth);
      if i :| 0 <= i < |groups| && SomeHolds(groups[i], truth) {
        assert i < |init| ==> SomeHolds(init[i], truth);
      }
      if i :| 0 <= i < |init| && SomeHolds(init[i], truth) {
        assert SomeHolds(groups[i], truth);
      }
    }
  }

  lemma {:induction false} GroupsMeaning(ignored: seq<string>, nodes: seq<Criteria>, truth: Criterion -> bool)
    ensures forall i :: 0 <= i < |nodes| ==>
              (SomeHolds(GroupsOf(ignored, nodes)[i], truth) <==> TreeHolds(ignored, nodes[i], truth))
    decreases nodes, 0
  {
    if nodes != [] {
      GroupsMeaning(ignored, nodes[..|nodes| - 1], truth);
      PossibilitiesMeanTheTree(ignored, nodes[|nodes| - 1], truth);
    }
  }

  /** For every tree and every truth assignment the tree holds exactly when some possibility
      holds entirely. */
  lemma {:induction false} PossibilitiesMeanTheTree(ignored: seq<string>, node: Criteria, truth: Criterion -> bool)
    ensures SomeHolds(Possibilities(ignored, node), truth) <==> TreeHolds(ignored, node, truth)
    decreases node, 1
  {
    OwnPossibilitiesMeaning(ignored, node, truth);
    if node.criterias == [] {
      assert node.(criterias := []) == node;
    } else {
      GroupsMeaning(ignored, node.criterias, truth);
      ComposedMeaning(ignored, node, truth);
    }
  }

  /** The groups of a node mean its children and, behind them, its own criterions. */
  lemma ComposedMeaning(ignored: seq<string>, node: Criteria, truth: Criterion -> bool)
    requires node.criterias != []
    requires forall i :: 0 <= i < |node.criterias| ==>
               (SomeHolds(GroupsOf(ignored, node.criterias)[i], truth) <==> TreeHolds(ignored, node.criterias[i], truth))
    requires SomeHolds(OwnPossibilities(ignored, node), truth) <==> TreeHolds(ignored, node.(criterias := []), truth)
    ensures SomeHolds(Possibilities(ignored, node), truth) <==> TreeHolds(ignored, node, truth)
  {
    var groups, n := Groups(ignored, node), |node.criterias|;
    assert forall i :: 0 <= i < n ==> groups[i] == GroupsOf(ignored, node.criterias)[i];
    assert |node.criterions| > 0 ==> groups[n] == OwnPossibilities(ignored, node);
    if node.operator == "AND" {
      ConjunctionMeaning(groups, truth);
    } else if node.operator == "OR" {
      DisjunctionMeaning(groups, truth);
    }
  }

  // ----- The loops

  method GetCriterions(ignored: seq<string>, node: Criteria) returns (possibilities: seq<Possibility>)
    ensures possibilities == OwnPossibilities(ignored, node)
  {
    var criterions: seq<Criterion> := [];
    for n := 0 to |node.criterions|
      invariant criterions == Kept(ignored, node.criterions[..n])
    {
      var c := node.criterions[n];
      assert node.criterions[..n + 1][..n] == node.criterions[..n];
      var skip := false;
      var k := 0;
      while k < |ignored|
        invariant 0 <= k <= |ignored|
        invariant !skip && forall i :: 0 <= i < k ==> !Contains(c.comment, ignored[i])
      {
        if Contains(c.comment, ignored[k]) {
          skip := true;
          break;
        }
        k := k + 1;
      }
      if !skip {
        criterions := criterions + [c];
      }
    }
    assert node.criterions[..|node.criterions|] == node.criterions;
    if node.operator == "AND" {
      return [criterions];
    } else if node.operator == "OR" {
      possibilities := [];
      for n := 0 to |criterions|
        invariant possibilities == Singles(criterions)[..n]
      {
        possibilities := possibilities + [[criterions[n]]];
      }
      return;
    }
    return [];
  }

  method GetPossibilities(ignored: seq<string>, node: Criteria) returns (possibilities: seq<Possibility>)
    ensures possibilities == Possibilities(ignored, node)
    decreases node
  {
    if |node.criterias| == 0 {
      possibilities := GetCriterions(ignored, node);
      return;
    }
    var toCompose: seq<seq<Possibility>> := [];
    for n := 0 to |node.criterias|
      invariant toCompose == GroupsOf(ignored, node.criterias[..n])
    {
      assert node.criterias[..n + 1][..n] == node.criterias[..n];
      var sub := GetPossibilities(ignored, node.criterias[n]);
      toCompose := toCompose + [sub];
    }
    assert node.criterias[..|node.criterias|] == node.criterias;
    if |node.criterions| > 0 {
      var own := GetCriterions(ignored, node);
      toCompose := toCompose + [own];
    }
    assert toCompose == Groups(ignored, node);
    possibilities := Compose(node.operator, toCompose);
  }

  /** The groups of a node put together by its operator. */
  method Compose(operator: string, toCompose: seq<seq<Possibility>>) returns (possibilities: seq<Possibility>)
    requires toCompose != []
    ensures possibilities ==
            if operator == "AND" then Conjunction(toCompose) else if operator == "OR" then Disjunction(toCompose) else []
  {
    possibilities := [];
    if operator == "AND" {
      possibilities := ComposeAll(toCompose);
    } else if operator == "OR" {
      for n := 0 to |toCompose|
        invariant possibilities == Disjunction(toCompose[..n])
      {
        assert toCompose[..n + 1][..n] == toCompose[..n];
        possibilities := possibilities + toCompose[n];
      }
      assert toCompose[..|toCompose|] == toCompose;
    }
  }

  /** The nested product loops of the AND case. */
  method ComposeAll(toCompose: seq<seq<Possibility>>) returns (possibilities: seq<Possibility>)
    requires toCompose != []
    ensures possibilities == Conjunction(toCompose)
  {
    possibilities := toCompose[0];
    assert toCompose[..1] == [toCompose[0]];
    for n := 1 to |toCompose|
      invariant possibilities == Conjunction(toCompose[..n])
    {
      assert toCompose[..n + 1][..n] == toCompose[..n];
      var newPossibilities: seq<Possibility> := [];
      for i := 0 to |possibilities|
        invariant newPossibilities == Cross(possibilities[..i], toCompose[n])
      {
        assert possibilities[..i + 1][..i] == possibilities[..i];
        for k := 0 to |toCompose[n]|
          invariant newPossibilities ==
                    Cross(possibilities[..i], toCompose[n]) + Extend(possibilities[i], toCompose[n])[..k]
        {
          newPossibilities := newPossibilities + [possibilities[i] + toCompose[n][k]];
        }
      }
      assert possibilities[..|possibilities|] == possibilities;
      possibilities := newPossibilities;
    }
    assert toCompose[..|toCompose|] == toCompose;
  }

  /** The possibilities of a definition of either source mean the tree of the definition. */
  method PossibilitiesOf(source: Source, node: Criteria) returns (possibilities: seq<Possibility>)
    ensures forall truth :: SomeHolds(possibilities, truth) <==> TreeHolds(IgnoredComments(source), node, truth)
  {
    possibilities := GetPossibilities(IgnoredComments(source), node);
    forall truth ensures SomeHolds(possibilities, truth) <==> TreeHolds(IgnoredComments(source), node, truth) {
      PossibilitiesMeanTheTree(IgnoredComments(source), node, truth);
    }
  }
}
