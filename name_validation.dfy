/**
 * The checks `handleFormSubmit` applies to the name field before anything
 * is loaded: trim, reject an empty name, reject one longer than twenty code
 * units, reject one the name pattern does not match.
 */
module NameValidation {
  import opened JsString

  /** The longest accepted name, in UTF-16 code units. */
  const MaxNameLength: nat := 20

  /** The outcome of the checks; each error has its own notice in the page. */
  datatype Validation = Empty | TooLong | InvalidFormat | Ok(token: Str)

  /**
   * The character class `[一-龥a-zA-Z0-9·•.\s]`: the CJK unified
   * ideographs U+4E00..U+9FA5, ASCII letters and digits, MIDDLE DOT U+00B7,
   * BULLET U+2022, FULL STOP and white space. The pattern has no `u` flag, so
   * it is matched code unit by code unit.
   */
  predicate InNameClass(u: CodeUnit) {
    (0x4E00 <= u <= 0x9FA5)
    || ('a' as CodeUnit <= u <= 'z' as CodeUnit)
    || ('A' as CodeUnit <= u <= 'Z' as CodeUnit)
    || ('0' as CodeUnit <= u <= '9' as CodeUnit)
    || u == 0xB7 || u == 0x2022 || u == '.' as CodeUnit
    || IsWhiteSpace(u)
  }

  /**
   * `/^[...]+$/.test(s)`: with both anchors and no `m` flag the pattern
   * matches exactly the non-empty strings made of class members.
   */
  predicate MatchesNamePattern(s: Str) {
    |s| > 0 && forall i :: 0 <= i < |s| ==> InNameClass(s[i])
  }

  /**
   * The checks, in the order the handler makes them. Each error is reported
   * exactly when the earlier checks passed and its own check fails, and an
   * accepted name is the trimmed field value.
   */
  function Validate(raw: Str): (r: Validation)
    ensures r == Empty <==> Trim(raw) == []
    ensures r == TooLong <==> |Trim(raw)| > MaxNameLength
    ensures r == InvalidFormat <==>
      0 < |Trim(raw)| <= MaxNameLength
      && exists i :: 0 <= i < |Trim(raw)| && !InNameClass(Trim(raw)[i])
    ensures r.Ok? <==> |Trim(raw)| <= MaxNameLength && MatchesNamePattern(Trim(raw))
    ensures r.Ok? ==> r.token == Trim(raw)
  {
    var name := Trim(raw);
    if name == [] then Empty
    else if |name| > MaxNameLength then TooLong
    else if !MatchesNamePattern(name) then InvalidFormat
    else Ok(name)
  }

  /**
   * Every accepted name has 1..20 code units, all from the class, and no
   * white space at either end.
   */
  lemma AcceptedNameShape(raw: Str)
    requires Validate(raw).Ok?
    ensures var t := Validate(raw).token;
      1 <= |t| <= MaxNameLength
      && (forall i :: 0 <= i < |t| ==> InNameClass(t[i]))
      && !IsWhiteSpace(t[0]) && !IsWhiteSpace(t[|t| - 1])
  {
  }

  /** A name the checks accepted passes them again unchanged. */
  lemma AcceptedNameIsFixpoint(raw: Str)
    requires Validate(raw).Ok?
    ensures Validate(Validate(raw).token) == Validate(raw)
  {
    TrimIdempotent(raw);
  }

  /** The names that can reach loading: those the checks return unchanged. */
  predicate IsAcceptedName(name: Str) {
    Validate(name) == Ok(name)
  }

  /** An accepted name holds no surrogate code unit. */
  lemma AcceptedNameHasNoSurrogate(name: Str)
    requires IsAcceptedName(name)
    ensures forall i :: 0 <= i < |name| ==> !IsHighSurrogate(name[i]) && !IsLowSurrogate(name[i])
  {
    assert Trim(name) == name;
    assert forall i :: 0 <= i < |name| ==> InNameClass(name[i]);
  }
}
