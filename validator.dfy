/**
  The extraction validator of the claim pipeline (`app/validator.py`): make
  sure the five required keys are present (missing ones become `None`) and cap
  their string values at 500 characters. Keys outside the required five are
  copied through untouched.
 */
module Validator {
  import opened Json

  /** `REQUIRED_KEYS`, in the source's order. */
  const RequiredKeys: seq<string> :=
    ["claimant_name", "incident_date", "claim_type", "policy_number", "amount_requested"]

  /** The cap on a required string value. */
  const MaxFieldLength: nat := 500

  predicate IsRequired(k: string) {
    k in RequiredKeys
  }

  lemma RequiredKeysDistinct()
    ensures |RequiredKeys| == 5
    ensures forall i, j :: 0 <= i < j < |RequiredKeys| ==> RequiredKeys[i] != RequiredKeys[j]
  {
  }

  /** One loop iteration's treatment of a (possibly defaulted) value. */
  function Cap(v: Json): Json {
    if v.JStr? && |v.s| > MaxFieldLength then JStr(v.s[..MaxFieldLength]) else v
  }

  /** The mapping `validate_extraction` returns for the mapping `m`. */
  function Validated(m: Dict): Dict {
    map k | k in m.Keys + (set r | r in RequiredKeys) ::
      if IsRequired(k) then Cap(Get(m, k)) else m[k]
  }

  /** The mapping after the loop has treated the first `i` required keys. */
  function Partial(m: Dict, i: nat): Dict
    requires i <= |RequiredKeys|
  {
    if i == 0 then m
    else
      var p, k := Partial(m, i - 1), RequiredKeys[i - 1];
      p[k := Cap(Get(p, k))]
  }

  /** `validate_extraction(extracted)`: `dict(extracted or {})`, then one pass
      over `REQUIRED_KEYS` that defaults and caps each in place. The input is
      a value, so it cannot be changed by the call. */
  method ValidateExtraction(extracted: Json) returns (result: Dict)
    requires DictOrFalsy(extracted)
    ensures result == Validated(AsDict(extracted))
  {
    var m := AsDict(extracted);
    result := m;
    for i := 0 to |RequiredKeys|
      invariant result == Partial(m, i)
    {
      var k := RequiredKeys[i];
      if k !in result {
        result := result[k := JNull];
      }
      if result[k].JStr? && |result[k].s| > MaxFieldLength {
        result := result[k := JStr(result[k].s[..MaxFieldLength])];
      }
    }
    PartialIsValidated(m);
  }

  /** A key the first `i` steps have not treated is present and mapped as in
      the input. */
  lemma {:induction false} PartialOutside(m: Dict, i: nat, k: string)
    requires i <= |RequiredKeys| && k !in RequiredKeys[..i]
    ensures (k in Partial(m, i) <==> k in m) && (k in m ==> Partial(m, i)[k] == m[k])
  {
    if i > 0 {
      assert RequiredKeys[..i] == RequiredKeys[..i - 1] + [RequiredKeys[i - 1]];
      PartialOutside(m, i - 1, k);
    }
  }

  /** A key the first `i` steps have treated holds its defaulted, capped value. */
  lemma {:induction false} PartialInside(m: Dict, i: nat, j: nat)
    requires j < i <= |RequiredKeys|
    ensures RequiredKeys[j] in Partial(m, i)
    ensures Partial(m, i)[RequiredKeys[j]] == Cap(Get(m, RequiredKeys[j]))
  {
    RequiredKeysDistinct();
    var k := RequiredKeys[i - 1];
    if j == i - 1 {
      assert k !in RequiredKeys[..i - 1];
      PartialOutside(m, i - 1, k);
    } else {
      PartialInside(m, i - 1, j);
    }
  }

  /** The keys after `i` steps are the input's plus the treated ones. */
  lemma {:induction false} PartialKeys(m: Dict, i: nat)
    requires i <= |RequiredKeys|
    ensures Partial(m, i).Keys == m.Keys + (set r | r in RequiredKeys[..i])
  {
    if i > 0 {
      assert RequiredKeys[..i] == RequiredKeys[..i - 1] + [RequiredKeys[i - 1]];
      PartialKeys(m, i - 1);
    }
  }

  /** After all five steps the mapping is the validated one. */
  lemma PartialIsValidated(m: Dict)
    ensures Partial(m, |RequiredKeys|) == Validated(m)
  {
    var p := Partial(m, |RequiredKeys|);
    assert RequiredKeys[..|RequiredKeys|] == RequiredKeys;
    PartialKeys(m, |RequiredKeys|);
    forall k | k in p ensures p[k] == Validated(m)[k] {
      if IsRequired(k) {
        var j :| 0 <= j < |RequiredKeys| && RequiredKeys[j] == k;
        PartialInside(m, |RequiredKeys|, j);
      } else {
        PartialOutside(m, |RequiredKeys|, k);
      }
    }
  }

  /** After validation every required key is present, and the keys are
      exactly the input's keys plus the required ones: no key is dropped. */
  lemma ValidatedKeys(m: Dict)
    ensures Validated(m).Keys == m.Keys + (set r | r in RequiredKeys)
    ensures forall k :: IsRequired(k) ==> k in Validated(m)
  {
  }

  /** What a required key maps to: `None` when it was missing, its first 500
      characters when it held a longer string, and its unchanged value
      otherwise (a string of at most 500 characters or a non-string). */
  lemma ValidatedRequired(m: Dict, k: string)
    requires IsRequired(k)
    ensures k !in m ==> Validated(m)[k] == JNull
    ensures k in m && m[k].JStr? && |m[k].s| > 500 ==>
              Validated(m)[k] == JStr(m[k].s[..500]) && |Validated(m)[k].s| == 500
    ensures k in m && !(m[k].JStr? && |m[k].s| > 500) ==> Validated(m)[k] == m[k]
  {
  }

  /** Keys outside `REQUIRED_KEYS` are kept with their values, however long
      their strings are. */
  lemma ValidatedKeepsExtras(m: Dict, k: string)
    requires k in m && !IsRequired(k)
    ensures k in Validated(m) && Validated(m)[k] == m[k]
  {
  }

  /** No required string value exceeds the cap afterwards. */
  lemma ValidatedBounded(m: Dict)
    ensures forall k :: IsRequired(k) && Validated(m)[k].JStr? ==> |Validated(m)[k].s| <= MaxFieldLength
  {
  }

  /** A `None` or otherwise falsy input, `{}` included, yields exactly the five
      required keys, all `None`. */
  lemma ValidatedFalsy(extracted: Json)
    requires !Truthy(extracted)
    ensures Validated(AsDict(extracted)).Keys == set r | r in RequiredKeys
    ensures forall k :: IsRequired(k) ==> Validated(AsDict(extracted))[k] == JNull
  {
  }

  /** Validating twice changes nothing more than validating once. */
  lemma ValidatedIdempotent(m: Dict)
    ensures Validated(Validated(m)) == Validated(m)
  {
    var v := Validated(m);
    forall k | IsRequired(k) ensures Cap(Get(v, k)) == v[k] {
      var c := Get(m, k);
      if c.JStr? && |c.s| > MaxFieldLength {
        assert v[k] == JStr(c.s[..MaxFieldLength]);
      }
    }
  }
}
