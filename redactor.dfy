/** `sanitize_sensitive_data`: a copy of a dict in which the string value of
    every field whose name mentions a sensitive term is masked, nested dicts
    being sanitised in turn. It is a hygiene filter for logs, not a
    security boundary. */
module Redactor {
  import opened Common
  import opened JsonValue

  const SENSITIVE_FIELDS: set<string> := {
    "api_key", "password", "token", "secret", "key",
    "credit_card", "ssn", "social_security", "account_number"
  }

  /** `mask_value`: the length is kept; a value of at most four characters
      becomes all stars, a longer one keeps its first two and last two
      characters around a run of stars. */
  function MaskValue(value: string): (r: string)
    ensures |r| == |value|
    ensures |value| <= 4 ==> forall i :: 0 <= i < |r| ==> r[i] == '*'
    ensures |value| > 4 ==>
              && r[..2] == value[..2]
              && r[|r| - 2..] == value[|value| - 2..]
              && forall i :: 2 <= i < |r| - 2 ==> r[i] == '*'
  {
    if |value| <= 4 then Repeat('*', |value|)
    else value[..2] + Repeat('*', |value| - 4) + value[|value| - 2..]
  }

  /** Masking a masked value changes nothing. */
  lemma MaskIdempotent(value: string)
    ensures MaskValue(MaskValue(value)) == MaskValue(value)
  {
    var m := MaskValue(value);
    var mm := MaskValue(m);
    assert |mm| == |m|;
    forall i | 0 <= i < |m| ensures mm[i] == m[i] {
      if |m| > 4 && i < 2 {
        assert mm[..2][i] == m[..2][i];
      } else if |m| > 4 && i >= |m| - 2 {
        assert mm[|mm| - 2..][i - (|m| - 2)] == m[|m| - 2..][i - (|m| - 2)];
      }
    }
  }

  /** `any(field in key.lower() for field in sensitive_fields)` */
  predicate IsSensitiveKey(key: string) {
    exists field :: field in SENSITIVE_FIELDS && Contains(Lower(key), field)
  }

  /** `sanitize_dict` as a function of the value: dicts are rebuilt entry by
      entry; every other value is left alone. */
  function Sanitized(j: Json): (r: Json)
    ensures r.JObj? <==> j.JObj?
    ensures j.JObj? ==> |r.entries| == |j.entries| &&
                        forall i :: 0 <= i < |j.entries| ==> r.entries[i].0 == j.entries[i].0
    ensures !j.JObj? ==> r == j
  {
    match j
    case JObj(d) =>
      JObj(seq(|d|, i requires 0 <= i < |d| =>
        (d[i].0,
         if d[i].1.JObj? then Sanitized(d[i].1)
         else if d[i].1.JStr? && IsSensitiveKey(d[i].0) then JStr(MaskValue(d[i].1.s))
         else d[i].1)))
    case _ => j
  }

  /** The rule for one entry, as the loop body of `sanitize_dict` applies it:
      dicts are recursed into whatever their key, a string is masked exactly
      when its key is sensitive, and anything else (lists, numbers, booleans,
      null) passes through. */
  lemma SanitizedEntries(d: Dict, i: int)
    requires 0 <= i < |d|
    ensures Sanitized(JObj(d)).entries[i].0 == d[i].0
    ensures d[i].1.JObj? ==> Sanitized(JObj(d)).entries[i].1 == Sanitized(d[i].1)
    ensures d[i].1.JStr? ==>
              Sanitized(JObj(d)).entries[i].1 ==
              (if IsSensitiveKey(d[i].0) then JStr(MaskValue(d[i].1.s)) else d[i].1)
    ensures !d[i].1.JObj? && !d[i].1.JStr? ==> Sanitized(JObj(d)).entries[i].1 == d[i].1
  {
  }

  /** The sanitised dict has the same keys as the input. */
  lemma SanitizedKeys(d: Dict)
    ensures Keys(Sanitized(JObj(d)).entries) == Keys(d)
    ensures DistinctKeys(d) ==> DistinctKeys(Sanitized(JObj(d)).entries)
  {
    var r := Sanitized(JObj(d)).entries;
    forall k | k in Keys(d) ensures k in Keys(r) {
      var i :| 0 <= i < |d| && d[i].0 == k;
      assert r[i].0 == k;
    }
    forall k | k in Keys(r) ensures k in Keys(d) {
      var i :| 0 <= i < |r| && r[i].0 == k;
      assert d[i].0 == k;
    }
  }

  /** Sanitising twice is sanitising once. */
  lemma {:induction false} SanitizeIdempotent(j: Json)
    ensures Sanitized(Sanitized(j)) == Sanitized(j)
  {
    if j.JObj? {
      var d := j.entries;
      var r := Sanitized(j).entries;
      var rr := Sanitized(Sanitized(j)).entries;
      assert |rr| == |r| == |d|;
      forall i | 0 <= i < |d| ensures rr[i] == r[i] {
        SanitizedEntries(d, i);
        SanitizedEntries(r, i);
        if d[i].1.JObj? {
          SanitizeIdempotent(d[i].1);
        } else if d[i].1.JStr? && IsSensitiveKey(d[i].0) {
          MaskIdempotent(d[i].1.s);
        }
      }
    }
  }

  /** `sanitize_dict(d)`: builds a fresh dict, entry by entry, recursing into
      nested dicts; `d` itself is not changed. */
  method SanitizeDict(d: Dict) returns (result: Dict)
    ensures JObj(result) == Sanitized(JObj(d))
    decreases JObj(d)
  {
    result := [];
    var i := 0;
    while i < |d|
      invariant 0 <= i <= |d|
      invariant result == Sanitized(JObj(d)).entries[..i]
    {
      var (key, value) := d[i];
      var entry: Json;
      if value.JObj? {
        assert value == d[i].1;
        var inner := SanitizeDict(value.entries);
        entry := JObj(inner);
      } else if value.JStr? && IsSensitiveKey(key) {
        entry := JStr(MaskValue(value.s));
      } else {
        entry := value;
      }
      assert Sanitized(JObj(d)).entries[i] == (key, entry);
      result := result + [(key, entry)];
      assert Sanitized(JObj(d)).entries[..i + 1] == Sanitized(JObj(d)).entries[..i] + [(key, entry)];
      i := i + 1;
    }
    assert Sanitized(JObj(d)).entries[..|d|] == Sanitized(JObj(d)).entries;
  }

  /** A long secret keeps two characters at each end. */
  lemma MaskLongExample()
    ensures MaskValue("abcdefgh") == "ab****gh"
    ensures MaskValue("ab") == "**"
  {
    assert Repeat('*', 4) == "****";
    assert Repeat('*', 2) == "**";
  }

  /** Matching is by substring of the lower-cased key, so `"monkey"` and
      `"API_KEY"` are sensitive. */
  lemma SensitiveExamples()
    ensures IsSensitiveKey("monkey")
    ensures IsSensitiveKey("API_KEY")
  {
    assert Lower("monkey") == "monkey";
    assert OccursAt("key", "monkey", 3);
    assert Lower("API_KEY") == "api_key";
    assert OccursAt("key", "api_key", 4);
  }

  lemma NameNotSensitive()
    ensures !IsSensitiveKey("name")
  {
    assert Lower("name") == "name";
    assert "name"[..3][0] == 'n' && "name"[1..][..3][0] == 'a' && |"name"[2..]| < 3;
    assert !Contains("name"[2..], "key");
    assert !Contains("name"[1..], "key");
    assert !Contains("name", "key");
    assert !Contains("name"[2..], "ssn");
    assert !Contains("name"[1..], "ssn");
    assert !Contains("name", "ssn");
    forall f | f in SENSITIVE_FIELDS ensures !Contains("name", f) {
      if |f| <= 4 {
        assert f == "key" || f == "ssn";
      }
    }
  }

  /** Whole dicts, as the redactor is applied to log payloads. */
  lemma RedactorExamples()
    ensures Sanitized(JObj([("api_key", JStr("abcdefgh"))])) == JObj([("api_key", JStr("ab****gh"))])
    ensures Sanitized(JObj([("name", JStr("abcdefgh"))])) == JObj([("name", JStr("abcdefgh"))])
    ensures Sanitized(JObj([("password", JObj([("x", JNum(1))]))])) == JObj([("password", JObj([("x", JNum(1))]))])
  {
    MaskLongExample();
    assert Lower("api_key") == "api_key";
    assert OccursAt("api_key", "api_key", 0);
    NameNotSensitive();
    assert Sanitized(JObj([("x", JNum(1))])) == JObj([("x", JNum(1))]);
  }
}
