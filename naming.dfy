/**
 * Names of stored images: `<field id>_<item id>_<uniqid>.jpg`. The prefix exists so that the
 * owner of a file can always be found back from its name.
 */
module Naming {
  import opened Wrappers
  import opened Numerals

  const Extension := ".jpg"

  /** `$field->id . '_' . $item->id . '_'` */
  function Prefix(fieldId: nat, itemId: nat): string {
    Decimal(fieldId) + "_" + Decimal(itemId) + "_"
  }

  /** One candidate name tried by the naming loop: the prefix, a unique id and `.jpg`. */
  function Candidate(prefix: string, id: string): (name: string)
    ensures |name| == |prefix| + |id| + 4
    ensures HasStoredForm(name, prefix)
  {
    prefix + id + Extension
  }

  /** `name` begins with `prefix` and ends in `.jpg`, whatever type the upload had. */
  predicate HasStoredForm(name: string, prefix: string) {
    |name| >= |prefix| + |Extension| &&
    name[..|prefix|] == prefix &&
    name[|name| - |Extension|..] == Extension
  }

  /** Different unique ids give different candidates under one prefix. */
  lemma CandidateInjective(prefix: string, a: string, b: string)
    ensures Candidate(prefix, a) == Candidate(prefix, b) ==> a == b
  {
    if Candidate(prefix, a) == Candidate(prefix, b) {
      assert a == Candidate(prefix, a)[|prefix|..|prefix| + |a|];
      assert b == Candidate(prefix, b)[|prefix|..|prefix| + |b|];
    }
  }

  /** Position of the first `c` in `s`, if any. */
  function FirstIndexOf(s: string, c: char): (r: Option<nat>)
    ensures r.Some? ==> r.value < |s| && s[r.value] == c
    ensures r.Some? ==> forall k :: 0 <= k < r.value ==> s[k] != c
    ensures r.None? ==> forall k :: 0 <= k < |s| ==> s[k] != c
  {
    if s == [] then None
    else if s[0] == c then Some(0)
    else match FirstIndexOf(s[1..], c)
      case None => None
      case Some(i) => Some(i + 1)
  }

  /** The (field id, item id) a stored name's prefix records, read up to the first two '_'. */
  function Owner(name: string): Option<(nat, nat)> {
    match FirstIndexOf(name, '_')
    case None => None
    case Some(i) =>
      var fieldPart := name[..i];
      var rest := name[i + 1..];
      match FirstIndexOf(rest, '_')
      case None => None
      case Some(j) =>
        var itemPart := rest[..j];
        if |fieldPart| > 0 && |itemPart| > 0 && AllDigits(fieldPart) && AllDigits(itemPart)
        then Some((ParseDecimal(fieldPart), ParseDecimal(itemPart)))
        else None
  }

  /** A string that is all digits, then `c`, has its first `c` right after the digits. */
  lemma FirstIndexAfterDigits(digits: string, c: char, rest: string)
    requires AllDigits(digits) && !IsDigit(c)
    ensures FirstIndexOf(digits + [c] + rest, c) == Some(|digits|)
  {
    var s := digits + [c] + rest;
    assert s[|digits|] == c;
    forall k | 0 <= k < |digits| ensures s[k] != c {
      assert s[k] == digits[k];
    }
  }

  /**
   * Whatever follows the prefix (the unique id, the extension), the name of a stored image
   * tells which field and which item it belongs to.
   */
  lemma OwnerOfPrefixed(fieldId: nat, itemId: nat, name: string)
    requires |name| >= |Prefix(fieldId, itemId)| && name[..|Prefix(fieldId, itemId)|] == Prefix(fieldId, itemId)
    ensures Owner(name) == Some((fieldId, itemId))
  {
    var f, t := Decimal(fieldId), Decimal(itemId);
    var tail := name[|Prefix(fieldId, itemId)|..];
    assert name == Prefix(fieldId, itemId) + tail;
    assert name == f + "_" + (t + "_" + tail);
    FirstIndexAfterDigits(f, '_', t + "_" + tail);
    var i := |f|;
    assert name[..i] == f;
    var rest := name[i + 1..];
    assert rest == t + "_" + tail;
    FirstIndexAfterDigits(t, '_', tail);
    assert rest[..|t|] == t;
    ParseDecimalOfDecimal(fieldId);
    ParseDecimalOfDecimal(itemId);
  }

  /** In particular every candidate name tried for a field and an item leads back to them. */
  lemma OwnerOfCandidate(fieldId: nat, itemId: nat, id: string)
    ensures Owner(Candidate(Prefix(fieldId, itemId), id)) == Some((fieldId, itemId))
  {
    var name := Candidate(Prefix(fieldId, itemId), id);
    OwnerOfPrefixed(fieldId, itemId, name);
  }
}
