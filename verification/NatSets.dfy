/** The first element of an ordered container, for std::set and std::map keyed by natural numbers. */
module NatSets {

  lemma {:induction false} FindLeast(keys: set<nat>) returns (least: nat)
    requires keys != {}
    ensures least in keys && forall j :: j in keys ==> least <= j
    decreases |keys|
  {
    least :| least in keys;
    var rest := keys - {least};
    assert forall j :: j in keys ==> j == least || j in rest;
    if rest != {} {
      var other := FindLeast(rest);
      if other < least { least := other; }
    }
  }

  lemma LeastExists(keys: set<nat>)
    requires keys != {}
    ensures exists k :: k in keys && forall j :: j in keys ==> k <= j
  {
    var k := FindLeast(keys);
  }

  function Least(keys: set<nat>): (k: nat)
    requires keys != {}
    ensures k in keys && forall j :: j in keys ==> k <= j
  {
    LeastExists(keys);
    var k :| k in keys && forall j :: j in keys ==> k <= j;
    k
  }
}
