/** Tuning tables by target prefix: the longest matching prefix wins. */
module TargetSettings {

  /** The table's entries in the order a hash map happens to list them, each prefix once. */
  predicate Distinct<T>(entries: seq<(string, T)>) {
    forall i, j :: 0 <= i < j < |entries| ==> entries[i].0 != entries[j].0
  }

  /** The settings of the longest prefix of the triple, or the fallback when none matches. */
  ghost predicate IsChosen<T>(entries: seq<(string, T)>, triple: string, fallback: T, r: T) {
    || (exists i :: 0 <= i < |entries| && IsLongest(entries, triple, i) && r == entries[i].1)
    || (r == fallback && forall i :: 0 <= i < |entries| ==> !(entries[i].0 <= triple))
  }

  ghost predicate IsLongest<T>(entries: seq<(string, T)>, triple: string, i: nat)
    requires i < |entries|
  {
    entries[i].0 <= triple
    && forall j :: 0 <= j < |entries| && entries[j].0 <= triple ==> |entries[j].0| <= |entries[i].0|
  }

  method TargetSettingsFor<T>(entries: seq<(string, T)>, triple: string, fallback: T) returns (r: T)
    ensures IsChosen(entries, triple, fallback, r)
  {
    var found, best := false, 0;
    for i := 0 to |entries|
      invariant !found ==> forall j :: 0 <= j < i ==> !(entries[j].0 <= triple)
      invariant found ==> best < i && entries[best].0 <= triple
      invariant found ==> forall j :: 0 <= j < i && entries[j].0 <= triple ==> |entries[j].0| <= |entries[best].0|
    {
      if entries[i].0 <= triple && (!found || |entries[i].0| > |entries[best].0|) {
        found, best := true, i;
      }
    }
    if found {
      assert IsLongest(entries, triple, best);
      r := entries[best].1;
    } else {
      r := fallback;
    }
  }

  /** The choice does not depend on the order in which the map lists its entries. */
  lemma ChoiceIgnoresOrder<T>(a: seq<(string, T)>, b: seq<(string, T)>, triple: string, fallback: T, r: T, s: T)
    requires Distinct(a) && multiset(a) == multiset(b)
    requires IsChosen(a, triple, fallback, r) && IsChosen(b, triple, fallback, s)
    ensures r == s
  {
    forall e ensures e in a <==> e in b {
      assert e in a <==> e in multiset(a);
    }
    assert forall j :: 0 <= j < |b| ==> b[j] in a;
    if i :| 0 <= i < |a| && IsLongest(a, triple, i) && r == a[i].1 {
      assert a[i] in b;
      var k :| 0 <= k < |b| && b[k] == a[i];
      var j :| 0 <= j < |b| && IsLongest(b, triple, j) && s == b[j].1;
      assert b[j] in a;
      var l :| 0 <= l < |a| && a[l] == b[j];
      assert a[i].0 == triple[..|a[i].0|] && a[l].0 == triple[..|a[l].0|];
    }
  }
}
