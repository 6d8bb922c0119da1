/**
 The completeness check applied to every assistant reply
 (`validate_response` in assistant/assistant_interaction.py): each required
 field name is looked for as a plain substring of the reply text, so a reply
 that merely mentions the words in prose passes just like a JSON object with
 those keys.
 */
module Validation {
  import opened Common

  /** The field names a payment reply must mention, in the order they are checked. */
  const RequiredKeys: seq<string> := ["action", "amount", "currency", "recipient"]

  /** The dictionary `{"valid": ..., "missing_info": [...]}` built by the check. */
  datatype ValidationResult = ValidationResult(valid: bool, missingInfo: seq<string>)

  /** The reference filter: the keys of `keys` that do not occur in `text`, in order. */
  function MissingFrom(keys: seq<string>, text: string): seq<string>
    decreases |keys|
  {
    if |keys| == 0 then []
    else (if Contains(text, keys[0]) then [] else [keys[0]]) + MissingFrom(keys[1..], text)
  }

  /**
   `validate_response`'s `for key in required_keys` loop, one key at a time: an absent
   key clears `valid` and is appended to `missing_info`.
   */
  function CheckKeys(keys: seq<string>, text: string, acc: ValidationResult): ValidationResult
    decreases |keys|
  {
    if |keys| == 0 then acc
    else
      var acc' := if Contains(text, keys[0]) then acc
                  else ValidationResult(false, acc.missingInfo + [keys[0]]);
      CheckKeys(keys[1..], text, acc')
  }

  /** The loop appends exactly the filtered keys and clears `valid` iff it appends any. */
  lemma {:induction false} CheckKeysIsFilter(keys: seq<string>, text: string, acc: ValidationResult)
    ensures CheckKeys(keys, text, acc)
            == ValidationResult(acc.valid && |MissingFrom(keys, text)| == 0,
                                acc.missingInfo + MissingFrom(keys, text))
    decreases |keys|
  {
    if |keys| > 0 {
      var acc' := if Contains(text, keys[0]) then acc
                  else ValidationResult(false, acc.missingInfo + [keys[0]]);
      CheckKeysIsFilter(keys[1..], text, acc');
      if !Contains(text, keys[0]) {
        assert acc.missingInfo + [keys[0]] + MissingFrom(keys[1..], text)
            == acc.missingInfo + MissingFrom(keys, text);
      }
    }
  }

  /** A key is reported missing iff it is one of `keys` and does not occur in `text`. */
  lemma {:induction false} MissingFromMembers(keys: seq<string>, text: string)
    ensures forall k :: k in MissingFrom(keys, text) <==> k in keys && !Occurs(k, text)
    decreases |keys|
  {
    if |keys| > 0 {
      MissingFromMembers(keys[1..], text);
      ContainsIffOccurs(text, keys[0]);
      assert keys == [keys[0]] + keys[1..];
    }
  }

  /** Filtering a list without repeats yields a list without repeats. */
  lemma {:induction false} MissingFromNoDuplicates(keys: seq<string>, text: string)
    requires NoDuplicates(keys)
    ensures NoDuplicates(MissingFrom(keys, text))
    decreases |keys|
  {
    if |keys| > 0 {
      MissingFromNoDuplicates(keys[1..], text);
      var rest := MissingFrom(keys[1..], text);
      MissingFromMembers(keys[1..], text);
      assert keys[0] !in keys[1..];
      assert keys[0] !in rest;
    }
  }

  /** What the check reports about one key: nothing if it occurs, the key itself otherwise. */
  ghost function Verdict(k: string, text: string): seq<string>
  {
    if Occurs(k, text) then [] else [k]
  }

  /** Removing a key from the front of the list removes only its own verdict. */
  lemma MissingFromCons(k: string, rest: seq<string>, text: string)
    ensures MissingFrom([k] + rest, text) == Verdict(k, text) + MissingFrom(rest, text)
  {
    ContainsIffOccurs(text, k);
    assert ([k] + rest)[1..] == rest;
  }

  /** The report is empty exactly when every key of `keys` occurs in `text`. */
  lemma MissingFromEmptyIffAllOccur(keys: seq<string>, text: string)
    ensures |MissingFrom(keys, text)| == 0 <==> forall k :: k in keys ==> Occurs(k, text)
  {
    MissingFromMembers(keys, text);
    if |MissingFrom(keys, text)| != 0 {
      assert MissingFrom(keys, text)[0] in MissingFrom(keys, text);
    }
  }

  /**
   `validate_response`: valid iff every required field name occurs somewhere
   in the text, and `missing_info` lists exactly the absent names, each once.
   */
  function ValidateResponse(response: string): (r: ValidationResult)
    ensures r.valid <==> forall k :: k in RequiredKeys ==> Occurs(k, response)
    ensures r.valid <==> |r.missingInfo| == 0
    ensures forall k :: k in r.missingInfo <==> k in RequiredKeys && !Occurs(k, response)
    ensures NoDuplicates(r.missingInfo)
  {
    CheckKeysIsFilter(RequiredKeys, response, ValidationResult(true, []));
    MissingFromMembers(RequiredKeys, response);
    MissingFromEmptyIffAllOccur(RequiredKeys, response);
    MissingFromNoDuplicates(RequiredKeys, response);
    CheckKeys(RequiredKeys, response, ValidationResult(true, []))
  }

  /** The report on a four-key list is the four verdicts side by side. */
  lemma MissingFromFour(a: string, b: string, c: string, d: string, text: string)
    ensures MissingFrom([a, b, c, d], text)
            == Verdict(a, text) + Verdict(b, text) + Verdict(c, text) + Verdict(d, text)
  {
    assert [a, b, c, d] == [a] + [b, c, d];
    assert [b, c, d] == [b] + [c, d];
    assert [c, d] == [c] + [d];
    assert [d] == [d] + [];
    MissingFromCons(d, [], text);
    MissingFromCons(c, [d], text);
    MissingFromCons(b, [c, d], text);
    MissingFromCons(a, [b, c, d], text);
  }

  /** The list of missing names follows the fixed order action, amount, currency, recipient. */
  lemma MissingInfoInFixedOrder(response: string)
    ensures ValidateResponse(response).missingInfo
            == Verdict("action", response) + Verdict("amount", response)
             + Verdict("currency", response) + Verdict("recipient", response)
  {
    CheckKeysIsFilter(RequiredKeys, response, ValidationResult(true, []));
    MissingFromFour("action", "amount", "currency", "recipient", response);
  }

  /**
   Mere mention counts: any text that names the four fields in prose, whatever
   surrounds the words, passes the check.
   */
  lemma ProseMentionCountsAsValid(p0: string, p1: string, p2: string, p3: string, p4: string)
    ensures ValidateResponse(p0 + "action" + p1 + "amount" + p2 + "currency" + p3 + "recipient" + p4).valid
  {
    var x1 := p0 + "action";
    var x2 := x1 + p1 + "amount";
    var x3 := x2 + p2 + "currency";
    var x4 := x3 + p3 + "recipient";
    var text := x4 + p4;
    OccursInSplice(p0, "action", []);
    assert p0 + "action" + [] == x1;
    OccursExtend("action", x1, p1);
    OccursExtend("action", x1 + p1, "amount");
    OccursInSplice(x1 + p1, "amount", []);
    assert x1 + p1 + "amount" + [] == x2;
    OccursExtend("action", x2, p2);
    OccursExtend("amount", x2, p2);
    OccursExtend("action", x2 + p2, "currency");
    OccursExtend("amount", x2 + p2, "currency");
    OccursInSplice(x2 + p2, "currency", []);
    assert x2 + p2 + "currency" + [] == x3;
    OccursExtend("action", x3, p3);
    OccursExtend("amount", x3, p3);
    OccursExtend("currency", x3, p3);
    OccursExtend("action", x3 + p3, "recipient");
    OccursExtend("amount", x3 + p3, "recipient");
    OccursExtend("currency", x3 + p3, "recipient");
    OccursInSplice(x3 + p3, "recipient", []);
    assert x3 + p3 + "recipient" + [] == x4;
    OccursExtend("action", x4, p4);
    OccursExtend("amount", x4, p4);
    OccursExtend("currency", x4, p4);
    OccursExtend("recipient", x4, p4);
    MissingInfoInFixedOrder(text);
  }
}
