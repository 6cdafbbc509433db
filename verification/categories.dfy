/** Crime-category lookup and the categorical crime-similarity score
    (funcoes_auxiliares.py). Categories are strings, as in the source, so the
    "aggression family" test is a substring test on the category name. */
module Categories {

  /** One entry of a category table: a name and the codes it groups. */
  datatype Category = Category(name: string, codes: seq<int>)

  /** The fallback category for a code that no list contains. */
  const Undefined: string := "Indefinido"

  // The code lists of the crime-category table.
  const HomicideCodes: seq<int> := [
    110, 113
  ]
  const SexualCrimeCodes: seq<int> := [
    121, 122, 815, 820, 821, 812, 813, 822, 845, 850, 860, 760, 762
  ]
  const RobberyCodes: seq<int> := [
    210, 220, 310, 320, 510, 520, 433, 330, 331, 410, 420, 421, 350, 351, 352, 353, 450,
    451, 452, 453, 341, 343, 345, 440, 441, 442, 443, 444, 445, 470, 471, 472, 473, 474,
    475, 480, 485, 487, 491, 522, 349, 446
  ]
  const SevereAggressionCodes: seq<int> := [
    230, 231, 235, 236, 250, 251, 761, 926
  ]
  const LightAggressionCodes: seq<int> := [
    435, 436, 437, 622, 623, 624, 625, 626, 627, 647, 763, 928, 930
  ]
  const VandalismCodes: seq<int> := [
    648, 924, 740, 745, 753, 886, 888, 755, 884, 756
  ]
  const KidnappingCodes: seq<int> := [
    910, 920, 922
  ]
  const FraudCodes: seq<int> := [
    940, 662, 664, 666
  ]

  /** The static crime-category table, in the dictionary's insertion order. */
  const CrimeTable: seq<Category> := [
    Category("homicidio", HomicideCodes),
    Category("crime sexual", SexualCrimeCodes),
    Category("roubo", RobberyCodes),
    Category("agressao grave", SevereAggressionCodes),
    Category("agressao leve", LightAggressionCodes),
    Category("vandalismo", VandalismCodes),
    Category("sequestro", KidnappingCodes),
    Category("golpes", FraudCodes)
  ]

  /** No code appears in the lists of two different entries. */
  ghost predicate PairwiseDisjoint(table: seq<Category>) {
    forall k1, k2, c :: 0 <= k1 < k2 < |table| && c in table[k1].codes ==> c !in table[k2].codes
  }

  /** Scans the table in order and returns the name of the first entry whose
      list holds `code`; `Undefined` when none does. Never fails. */
  function Lookup(table: seq<Category>, code: int): (r: string)
    ensures (forall k :: 0 <= k < |table| ==> code !in table[k].codes) ==> r == Undefined
    ensures forall k :: 0 <= k < |table| && code in table[k].codes
                        && (forall k' :: 0 <= k' < k ==> code !in table[k'].codes)
                        ==> r == table[k].name
  {
    if |table| == 0 then Undefined
    else if code in table[0].codes then table[0].name
    else
      var rest := Lookup(table[1..], code);
      assert forall k :: 1 <= k < |table| ==> table[k] == table[1..][k - 1];
      rest
  }

  /** With pairwise-disjoint lists the answer is the name of ANY entry that
      holds the code: the scan order cannot matter. */
  lemma {:induction false} LookupDisjoint(table: seq<Category>, code: int, k: nat)
    requires PairwiseDisjoint(table)
    requires k < |table| && code in table[k].codes
    ensures Lookup(table, code) == table[k].name
  {
    if k > 0 {
      assert code !in table[0].codes;
      var rest := table[1..];
      assert rest[k - 1] == table[k];
      assert PairwiseDisjoint(rest) by {
        forall k1, k2, c | 0 <= k1 < k2 < |rest| && c in rest[k1].codes
          ensures c !in rest[k2].codes
        {
          assert rest[k1] == table[k1 + 1] && rest[k2] == table[k2 + 1];
        }
      }
      LookupDisjoint(rest, code, k - 1);
    }
  }

  /** Two disjoint tables holding the same entries, in any order, categorise
      every code alike. */
  lemma LookupOrderIndependent(t1: seq<Category>, t2: seq<Category>, code: int)
    requires PairwiseDisjoint(t1) && PairwiseDisjoint(t2)
    requires forall e :: e in t1 <==> e in t2
    ensures Lookup(t1, code) == Lookup(t2, code)
  {
    if k1 :| 0 <= k1 < |t1| && code in t1[k1].codes {
      assert t1[k1] in t2;
      var k2 :| 0 <= k2 < |t2| && t2[k2] == t1[k1];
      LookupDisjoint(t1, code, k1);
      LookupDisjoint(t2, code, k2);
    } else {
      forall k2 | 0 <= k2 < |t2| ensures code !in t2[k2].codes {
        assert t2[k2] in t1;
      }
    }
  }

  // Membership in each list of the table as a plain disjunction of codes:
  // the form in which the solver can refute a code lying in two lists.
  lemma InList0(c: int)
    ensures c in HomicideCodes <==> c == 110 || c == 113
  {
  }

  lemma InList1(c: int)
    ensures c in SexualCrimeCodes <==> c == 121 || c == 122 || c == 815 || c == 820 || c == 821 || c == 812 || c == 813 || c == 822 || c == 845 || c == 850 || c == 860 || c == 760 || c == 762
  {
  }

  lemma InList2(c: int)
    ensures c in RobberyCodes <==> c == 210 || c == 220 || c == 310 || c == 320 || c == 510 || c == 520 || c == 433 || c == 330 || c == 331 || c == 410 || c == 420 || c == 421 || c == 350 || c == 351 || c == 352 || c == 353 || c == 450 || c == 451 || c == 452 || c == 453 || c == 341 || c == 343 || c == 345 || c == 440 || c == 441 || c == 442 || c == 443 || c == 444 || c == 445 || c == 470 || c == 471 || c == 472 || c == 473 || c == 474 || c == 475 || c == 480 || c == 485 || c == 487 || c == 491 || c == 522 || c == 349 || c == 446
  {
  }

  lemma InList3(c: int)
    ensures c in SevereAggressionCodes <==> c == 230 || c == 231 || c == 235 || c == 236 || c == 250 || c == 251 || c == 761 || c == 926
  {
  }

  lemma InList4(c: int)
    ensures c in LightAggressionCodes <==> c == 435 || c == 436 || c == 437 || c == 622 || c == 623 || c == 624 || c == 625 || c == 626 || c == 627 || c == 647 || c == 763 || c == 928 || c == 930
  {
  }

  lemma InList5(c: int)
    ensures c in VandalismCodes <==> c == 648 || c == 924 || c == 740 || c == 745 || c == 753 || c == 886 || c == 888 || c == 755 || c == 884 || c == 756
  {
  }

  lemma InList6(c: int)
    ensures c in KidnappingCodes <==> c == 910 || c == 920 || c == 922
  {
  }

  lemma InList7(c: int)
    ensures c in FraudCodes <==> c == 940 || c == 662 || c == 664 || c == 666
  {
  }

  lemma CrimeTableDisjoint()
    ensures PairwiseDisjoint(CrimeTable)
  {
    forall k1, k2, c | 0 <= k1 < k2 < |CrimeTable| && c in CrimeTable[k1].codes
      ensures c !in CrimeTable[k2].codes
    {
      if k1 == 0 && k2 == 1 { InList0(c); InList1(c); }
      if k1 == 0 && k2 == 2 { InList0(c); InList2(c); }
      if k1 == 0 && k2 == 3 { InList0(c); InList3(c); }
      if k1 == 0 && k2 == 4 { InList0(c); InList4(c); }
      if k1 == 0 && k2 == 5 { InList0(c); InList5(c); }
      if k1 == 0 && k2 == 6 { InList0(c); InList6(c); }
      if k1 == 0 && k2 == 7 { InList0(c); InList7(c); }
      if k1 == 1 && k2 == 2 { InList1(c); InList2(c); }
      if k1 == 1 && k2 == 3 { InList1(c); InList3(c); }
      if k1 == 1 && k2 == 4 { InList1(c); InList4(c); }
      if k1 == 1 && k2 == 5 { InList1(c); InList5(c); }
      if k1 == 1 && k2 == 6 { InList1(c); InList6(c); }
      if k1 == 1 && k2 == 7 { InList1(c); InList7(c); }
      if k1 == 2 && k2 == 3 { InList2(c); InList3(c); }
      if k1 == 2 && k2 == 4 { InList2(c); InList4(c); }
      if k1 == 2 && k2 == 5 { InList2(c); InList5(c); }
      if k1 == 2 && k2 == 6 { InList2(c); InList6(c); }
      if k1 == 2 && k2 == 7 { InList2(c); InList7(c); }
      if k1 == 3 && k2 == 4 { InList3(c); InList4(c); }
      if k1 == 3 && k2 == 5 { InList3(c); InList5(c); }
      if k1 == 3 && k2 == 6 { InList3(c); InList6(c); }
      if k1 == 3 && k2 == 7 { InList3(c); InList7(c); }
      if k1 == 4 && k2 == 5 { InList4(c); InList5(c); }
      if k1 == 4 && k2 == 6 { InList4(c); InList6(c); }
      if k1 == 4 && k2 == 7 { InList4(c); InList7(c); }
      if k1 == 5 && k2 == 6 { InList5(c); InList6(c); }
      if k1 == 5 && k2 == 7 { InList5(c); InList7(c); }
      if k1 == 6 && k2 == 7 { InList6(c); InList7(c); }
    }
  }

  /** The category of a crime code under the source's static table. */
  function CrimeCategory(code: int): (r: string)
    ensures forall k :: 0 <= k < |CrimeTable| && code in CrimeTable[k].codes ==> r == CrimeTable[k].name
    ensures (forall k :: 0 <= k < |CrimeTable| ==> code !in CrimeTable[k].codes) ==> r == Undefined
  {
    CrimeTableDisjoint();
    forall k | 0 <= k < |CrimeTable| && code in CrimeTable[k].codes
      ensures Lookup(CrimeTable, code) == CrimeTable[k].name
    {
      LookupDisjoint(CrimeTable, code, k);
    }
    Lookup(CrimeTable, code)
  }

  /** Sample lookups: a homicide code, a robbery code from the end of its
      list, and a code no list holds. */
  lemma CrimeCategoryExamples()
    ensures CrimeCategory(110) == "homicidio"
    ensures CrimeCategory(446) == "roubo"
    ensures CrimeCategory(999) == Undefined
  {
    assert 110 in CrimeTable[0].codes;
    assert 446 in CrimeTable[2].codes;
    forall k | 0 <= k < |CrimeTable| ensures 999 !in CrimeTable[k].codes {
      if k == 0 { InList0(999); }
      if k == 1 { InList1(999); }
      if k == 2 { InList2(999); }
      if k == 3 { InList3(999); }
      if k == 4 { InList4(999); }
      if k == 5 { InList5(999); }
      if k == 6 { InList6(999); }
      if k == 7 { InList7(999); }
    }
  }

  /** `sub` occurs somewhere in `s` (Python's `sub in s` on strings). */
  predicate Contains(s: string, sub: string)
    decreases |s|
  {
    |sub| <= |s| && (s[..|sub|] == sub || Contains(s[1..], sub))
  }

  /** `sub` starts at position `i` of `s`. */
  predicate OccursAt(s: string, sub: string, i: int) {
    0 <= i <= |s| - |sub| && s[i..i + |sub|] == sub
  }

  /** The scanning definition agrees with "occurs at some position". */
  lemma {:induction false} ContainsMeansOccurs(s: string, sub: string)
    ensures Contains(s, sub) <==> exists i :: OccursAt(s, sub, i)
    decreases |s|
  {
    if |sub| <= |s| && s[..|sub|] != sub {
      ContainsMeansOccurs(s[1..], sub);
      if i :| OccursAt(s, sub, i) {
        assert i > 0;
        assert s[1..][i - 1..i - 1 + |sub|] == s[i..i + |sub|];
        assert OccursAt(s[1..], sub, i - 1);
      }
      if i :| OccursAt(s[1..], sub, i) {
        assert s[i + 1..i + 1 + |sub|] == s[1..][i..i + |sub|];
        assert OccursAt(s, sub, i + 1);
      }
    } else if |sub| <= |s| {
      assert OccursAt(s, sub, 0);
    }
  }

  const Aggression: string := "agressao"
  const Homicide: string := "homicidio"
  const SevereAggression: string := "agressao grave"

  /** The crime-category score as written: 1 for equal categories, 0.75 for
      two different members of the aggression family, 0 otherwise. The
      severe-aggression/homicide test compares and discards its result, so
      that pair scores 0. */
  function CompareCategories(cat1: string, cat2: string): (r: real)
    ensures cat1 == cat2 ==> r == 1.0
    ensures cat1 != cat2 && Contains(cat1, Aggression) && Contains(cat2, Aggression) ==> r == 0.75
    ensures cat1 != cat2 && !(Contains(cat1, Aggression) && Contains(cat2, Aggression)) ==> r == 0.0
  {
    var weight0 := 0.0;
    var weight1 := if Contains(cat1, Aggression) && Contains(cat2, Aggression) then 0.75 else weight0;
    var weight2 := if cat1 == cat2 then 1.0 else weight1;
    // The homicide/severe-aggression branch is an equality test whose value is dropped.
    weight2
  }

  lemma CompareCategoriesSymmetric(cat1: string, cat2: string)
    ensures CompareCategories(cat1, cat2) == CompareCategories(cat2, cat1)
  {
  }

  lemma CompareCategoriesRange(cat1: string, cat2: string)
    ensures CompareCategories(cat1, cat2) in {0.0, 0.75, 1.0}
  {
  }

  /** The as-written score gives the homicide/severe-aggression pair nothing. */
  lemma HomicideSevereAsWritten()
    ensures CompareCategories(SevereAggression, Homicide) == 0.0
    ensures CompareCategories(Homicide, SevereAggression) == 0.0
  {
    assert !Contains(Homicide, Aggression) by {
      assert Homicide[..8][0] != Aggression[0];
      assert Homicide[1..][..8][0] != Aggression[0];
      assert |Homicide[1..][1..]| < 8;
    }
  }

  /** The pair that the discarded comparison was evidently meant to reward. */
  predicate IsHomicideSeverePair(cat1: string, cat2: string) {
    (cat1 == SevereAggression && cat2 == Homicide) || (cat1 == Homicide && cat2 == SevereAggression)
  }

  /** The crime-category score with the intended partial credit of 0.25
      between homicide and severe aggression. */
  function CompareCategoriesIntended(cat1: string, cat2: string): (r: real)
    ensures IsHomicideSeverePair(cat1, cat2) ==> r == 0.25
    ensures !IsHomicideSeverePair(cat1, cat2) ==> r == CompareCategories(cat1, cat2)
    ensures r in {0.0, 0.25, 0.75, 1.0}
  {
    if IsHomicideSeverePair(cat1, cat2) then 0.25 else CompareCategories(cat1, cat2)
  }

  lemma CompareCategoriesIntendedSymmetric(cat1: string, cat2: string)
    ensures CompareCategoriesIntended(cat1, cat2) == CompareCategoriesIntended(cat2, cat1)
  {
  }
}
