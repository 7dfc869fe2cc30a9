// Allocation of a standard policy slot: the first free of Policy0 .. Policy63.
module AccessPolicies {

  const MAX_POLICIES: nat := 64
  const PREFIX := "Policy"

  /** Decimal digits of n. */
  function Decimal(n: nat): (s: string)
    ensures s != "" && forall i :: 0 <= i < |s| ==> '0' <= s[i] <= '9'
  {
    if n < 10 then [('0' as int + n) as char] else Decimal(n / 10) + [('0' as int + n % 10) as char]
  }

  lemma {:induction false} DecimalInjective(m: nat, n: nat)
    requires Decimal(m) == Decimal(n)
    ensures m == n
  {
    var s := Decimal(m);
    if m < 10 || n < 10 {
    } else {
      assert s[..|s| - 1] == Decimal(m / 10) && s[..|s| - 1] == Decimal(n / 10);
      DecimalInjective(m / 10, n / 10);
      assert s[|s| - 1] == ('0' as int + m % 10) as char && s[|s| - 1] == ('0' as int + n % 10) as char;
    }
  }

  function SlotName(i: nat): string {
    PREFIX + Decimal(i)
  }

  lemma SlotNameInjective(i: nat, j: nat)
    requires SlotName(i) == SlotName(j)
    ensures i == j
  {
    assert SlotName(i)[|PREFIX|..] == Decimal(i);
    assert SlotName(j)[|PREFIX|..] == Decimal(j);
    DecimalInjective(i, j);
  }

  /** Policy followed by one or more ASCII digits: the names Delete and the other edits accept. */
  predicate IsStandardPolicyName(name: string) {
    PREFIX <= name && |name| > |PREFIX| &&
    forall i :: |PREFIX| <= i < |name| ==> '0' <= name[i] <= '9'
  }

  /** The number a digit string stands for in base ten. */
  function Read(s: string): int {
    if s == "" then 0 else 10 * Read(s[..|s| - 1]) + (s[|s| - 1] as int - '0' as int)
  }

  lemma {:induction false} ReadsBack(n: nat)
    ensures Read(Decimal(n)) == n
  {
    if n < 10 {
      assert Decimal(n)[..0] == "";
    } else {
      ReadsBack(n / 10);
      var s := Decimal(n);
      assert s[..|s| - 1] == Decimal(n / 10) && s[|s| - 1] == ('0' as int + n % 10) as char;
    }
  }

  lemma {:induction false} LeadingZero(n: nat)
    ensures Decimal(n)[0] == '0' <==> n == 0
  {
    if n < 10 {
    } else {
      LeadingZero(n / 10);
    }
  }

  /** Every digit string without padding is the decimal of a number. */
  lemma {:induction false} DecimalOnto(s: string) returns (n: nat)
    requires s != "" && forall i :: 0 <= i < |s| ==> '0' <= s[i] <= '9'
    requires |s| == 1 || s[0] != '0'
    ensures Decimal(n) == s
  {
    var k := |s| - 1;
    var digit := s[k] as int - '0' as int;
    if k == 0 {
      n := digit;
    } else {
      var m := DecimalOnto(s[..k]);
      LeadingZero(m);
      n := 10 * m + digit;
      assert n / 10 == m && n % 10 == digit;
      assert s == s[..k] + [s[k]];
    }
  }

  /** Of the accepted names exactly the unpadded ones are slot names. */
  lemma StandardNames(name: string)
    requires IsStandardPolicyName(name)
    ensures (exists n :: name == SlotName(n)) <==> |name| == |PREFIX| + 1 || name[|PREFIX|] != '0'
  {
    var suffix := name[|PREFIX|..];
    assert name == PREFIX + suffix;
    if n :| name == SlotName(n) {
      assert suffix == Decimal(n);
      LeadingZero(n);
    }
    if |suffix| == 1 || suffix[0] != '0' {
      var n := DecimalOnto(suffix);
      assert name == SlotName(n);
    }
  }

  /** A padded name is accepted although no slot is called so. */
  lemma PaddedNameAccepted()
    ensures IsStandardPolicyName("Policy00") && forall n :: SlotName(n) != "Policy00"
  {
    var name := "Policy00";
    assert name[..|PREFIX|] == PREFIX && name[|PREFIX|] == '0';
    StandardNames(name);
  }

  /** The name Create picks; "" when every slot is taken. */
  method FindSlot(existing: seq<string>) returns (name: string)
    ensures name == "" <==> forall i :: 0 <= i < MAX_POLICIES ==> SlotName(i) in existing
    ensures name != "" ==>
              && name !in existing
              && IsStandardPolicyName(name)
              && exists i :: 0 <= i < MAX_POLICIES && name == SlotName(i)
                             && forall j :: 0 <= j < i ==> SlotName(j) in existing
  {
    var names: set<string> := {};
    for i := 0 to |existing|
      invariant forall s :: s in names <==> s in existing[..i]
    {
      names := names + {existing[i]};
    }
    name := "";
    for i := 0 to MAX_POLICIES
      invariant forall j :: 0 <= j < i ==> SlotName(j) in existing
    {
      var candidate := SlotName(i);
      if candidate !in names {
        return candidate;
      }
    }
  }

  lemma {:induction false} SlotsCounted(existing: set<string>, n: nat)
    requires forall i :: 0 <= i < n ==> SlotName(i) in existing
    ensures |existing| >= n
  {
    if n == 0 {
    } else {
      var last := SlotName(n - 1);
      forall i | 0 <= i < n - 1 ensures SlotName(i) in existing - {last} {
        if SlotName(i) == last {
          SlotNameInjective(i, n - 1);
        }
      }
      SlotsCounted(existing - {last}, n - 1);
    }
  }

  lemma {:induction false} SetNoLarger(list: seq<string>)
    ensures |set s | s in list| <= |list|
  {
    if list == [] {
      assert (set s | s in list) == {};
    } else {
      SetNoLarger(list[1..]);
      assert (set s | s in list) == {list[0]} + (set s | s in list[1..]);
    }
  }

  /** Creation can run out of slots only when at least 64 policies exist. */
  lemma FewPoliciesLeaveASlot(existing: seq<string>)
    requires |existing| < MAX_POLICIES
    ensures exists i :: 0 <= i < MAX_POLICIES && SlotName(i) !in existing
  {
    if forall i :: 0 <= i < MAX_POLICIES ==> SlotName(i) in existing {
      SlotsCounted((set s | s in existing), MAX_POLICIES);
      SetNoLarger(existing);
    }
  }
}
