/** The validation-error accumulator of lines/domain/validators.go: an ordered
    association list from field name to that field's messages, the validators
    built on it, and the conversion of store-level errors into it.

    Go slices are shared mutable arrays; here every list is an immutable value
    and each operation returns the new list, which is what every caller in the
    source observes because each one keeps only the returned slice. */
module Validation {
  import opened Wrappers
  import EmailPattern

  /** One entry of the accumulator: a field and its messages, oldest first
      (`DomainValidationErrors` in lines/domain/interfaces.go). */
  datatype FieldErrors = FieldErrors(field: string, errors: seq<string>)

  /** One store-level validation error (`ModelValidationError` in
      lines/store/interfaces.go). */
  datatype ModelValidationError = ModelValidationError(field: string, message: string)

  /** The field names of the entries, in entry order. */
  function Fields(errs: seq<FieldErrors>): seq<string> {
    seq(|errs|, i requires 0 <= i < |errs| => errs[i].field)
  }

  /** No field has two entries. */
  predicate DistinctFields(errs: seq<FieldErrors>) {
    forall i, j :: 0 <= i < j < |errs| ==> errs[i].field != errs[j].field
  }

  /** Index of the first entry for `field`, if any. */
  function FindField(errs: seq<FieldErrors>, field: string): (r: Option<nat>)
    ensures r.None? <==> field !in Fields(errs)
    ensures r.Some? ==> r.value < |errs| && errs[r.value].field == field
    ensures r.Some? ==> forall j :: 0 <= j < r.value ==> errs[j].field != field
  {
    if errs == [] then
      None
    else if errs[0].field == field then
      assert Fields(errs)[0] == field;
      Some(0)
    else
      assert Fields(errs) == [errs[0].field] + Fields(errs[1..]);
      match FindField(errs[1..], field)
      case None => None
      case Some(i) => Some(i + 1)
  }

  /** The messages recorded for `field` (none when it has no entry). */
  function MessagesOf(errs: seq<FieldErrors>, field: string): seq<string> {
    match FindField(errs, field)
    case None => []
    case Some(i) => errs[i].errors
  }

  /** Number of messages over all entries. */
  function TotalMessages(errs: seq<FieldErrors>): nat {
    if errs == [] then 0 else |errs[0].errors| + TotalMessages(errs[1..])
  }

  lemma {:induction false} TotalMessagesAppend(errs: seq<FieldErrors>, e: FieldErrors)
    ensures TotalMessages(errs + [e]) == TotalMessages(errs) + |e.errors|
  {
    if errs == [] {
      assert errs + [e] == [e];
    } else {
      assert (errs + [e])[1..] == errs[1..] + [e];
      TotalMessagesAppend(errs[1..], e);
    }
  }

  lemma {:induction false} TotalMessagesUpdate(errs: seq<FieldErrors>, i: nat, e: FieldErrors)
    requires i < |errs|
    ensures TotalMessages(errs[i := e]) + |errs[i].errors| == TotalMessages(errs) + |e.errors|
  {
    if i > 0 {
      assert errs[i := e][1..] == errs[1..][i - 1 := e];
      TotalMessagesUpdate(errs[1..], i - 1, e);
    }
  }

  /** Two lists whose fields agree position by position, where the longer
      one has no further entry for `field`, find `field` at the same place. */
  lemma {:induction false} FindFieldSameFields(a: seq<FieldErrors>, b: seq<FieldErrors>, field: string)
    requires |a| <= |b|
    requires forall i :: 0 <= i < |a| ==> a[i].field == b[i].field
    requires forall i :: |a| <= i < |b| ==> b[i].field != field
    ensures FindField(a, field) == FindField(b, field)
  {
    if a == [] {
      assert forall i :: 0 <= i < |b| ==> Fields(b)[i] != field;
    } else if a[0].field != field {
      assert b != [] && b[0].field != field;
      FindFieldSameFields(a[1..], b[1..], field);
    }
  }

  /** Appending a message to the first entry for a present field. */
  lemma AppendToExisting(field: string, message: string, errs: seq<FieldErrors>, i: nat)
    requires FindField(errs, field) == Some(i)
    ensures var r := errs[i := FieldErrors(field, errs[i].errors + [message])];
      && Fields(r) == Fields(errs)
      && (forall f :: MessagesOf(r, f) == MessagesOf(errs, f) + (if f == field then [message] else []))
      && TotalMessages(r) == TotalMessages(errs) + 1
      && (DistinctFields(errs) ==> DistinctFields(r))
  {
    var r := errs[i := FieldErrors(field, errs[i].errors + [message])];
    TotalMessagesUpdate(errs, i, r[i]);
    assert Fields(r) == Fields(errs);
    forall f ensures MessagesOf(r, f) == MessagesOf(errs, f) + (if f == field then [message] else []) {
      FindFieldSameFields(r, errs, f);
    }
  }

  /** Adding a new single-message entry at the end for an absent field. */
  lemma AppendNewEntry(field: string, message: string, errs: seq<FieldErrors>)
    requires field !in Fields(errs)
    ensures var r := errs + [FieldErrors(field, [message])];
      && Fields(r) == Fields(errs) + [field]
      && FindField(r, field) == Some(|errs|)
      && (forall f :: MessagesOf(r, f) == MessagesOf(errs, f) + (if f == field then [message] else []))
      && TotalMessages(r) == TotalMessages(errs) + 1
      && (DistinctFields(errs) ==> DistinctFields(r))
  {
    var r := errs + [FieldErrors(field, [message])];
    TotalMessagesAppend(errs, r[|errs|]);
    assert Fields(r) == Fields(errs) + [field];
    forall j | 0 <= j < |errs| ensures r[j].field != field {
      assert Fields(errs)[j] == r[j].field;
    }
    assert FindField(r, field) == Some(|errs|) by {
      assert Fields(r)[|errs|] == field;
    }
    forall f ensures MessagesOf(r, f) == MessagesOf(errs, f) + (if f == field then [message] else []) {
      if f != field {
        FindFieldSameFields(errs, r, f);
      }
    }
  }

  /** `AddValidationError`: a message for a field already present is appended
      to the first entry for that field and nothing else changes; a message
      for a new field becomes a new single-message entry at the end. Each call
      adds exactly one message, keeps the field names distinct, and keeps the
      entries in first-seen order. */
  function AddValidationError(field: string, message: string, errs: seq<FieldErrors>): (r: seq<FieldErrors>)
    ensures field !in Fields(errs) ==> r == errs + [FieldErrors(field, [message])]
    ensures field !in Fields(errs) ==> FindField(r, field) == Some(|errs|)
    ensures field in Fields(errs) ==>
      var i := FindField(errs, field).value;
      && |r| == |errs|
      && r[i] == FieldErrors(field, errs[i].errors + [message])
      && forall j :: 0 <= j < |errs| && j != i ==> r[j] == errs[j]
    ensures Fields(r) == if field in Fields(errs) then Fields(errs) else Fields(errs) + [field]
    ensures forall f :: MessagesOf(r, f) == MessagesOf(errs, f) + (if f == field then [message] else [])
    ensures TotalMessages(r) == TotalMessages(errs) + 1
    ensures DistinctFields(errs) ==> DistinctFields(r)
  {
    match FindField(errs, field)
    case Some(i) =>
      AppendToExisting(field, message, errs, i);
      errs[i := FieldErrors(field, errs[i].errors + [message])]
    case None =>
      AppendNewEntry(field, message, errs);
      errs + [FieldErrors(field, [message])]
  }

  /** `EmptyStringValidator`: the message "<field> is required" is added
      exactly when the value is empty; otherwise the list is unchanged. */
  function EmptyStringValidator(value: string, field: string, errs: seq<FieldErrors>): (r: seq<FieldErrors>)
    ensures value != "" ==> r == errs
    ensures value == "" ==>
      forall f :: MessagesOf(r, f) == MessagesOf(errs, f) + (if f == field then [field + " is required"] else [])
    ensures value == "" && field !in Fields(errs) ==> r == errs + [FieldErrors(field, [field + " is required"])]
    ensures TotalMessages(r) == TotalMessages(errs) + (if value == "" then 1 else 0)
    ensures DistinctFields(errs) ==> DistinctFields(r)
  {
    if value == "" then AddValidationError(field, field + " is required", errs) else errs
  }

  /** `EmailValidator`: an empty value gets "<field> is required" and then
      "Invalid email" (the empty string does not match the pattern); a
      non-empty value gets "Invalid email" exactly when it does not match the
      pattern. */
  function EmailValidator(value: string, field: string, errs: seq<FieldErrors>): (r: seq<FieldErrors>)
    ensures value != "" && EmailPattern.MatchesEmailPattern(value) ==> r == errs
    ensures value != "" && !EmailPattern.MatchesEmailPattern(value) ==>
      forall f :: MessagesOf(r, f) == MessagesOf(errs, f) + (if f == field then ["Invalid email"] else [])
    ensures value != "" && !EmailPattern.MatchesEmailPattern(value) && field !in Fields(errs) ==>
      r == errs + [FieldErrors(field, ["Invalid email"])]
    ensures value == "" ==>
      forall f :: MessagesOf(r, f) == MessagesOf(errs, f) + (if f == field then [field + " is required", "Invalid email"] else [])
    ensures value == "" && field !in Fields(errs) ==>
      r == errs + [FieldErrors(field, [field + " is required", "Invalid email"])]
    ensures TotalMessages(r) == TotalMessages(errs) +
      (if value == "" then 2 else if EmailPattern.MatchesEmailPattern(value) then 0 else 1)
    ensures DistinctFields(errs) ==> DistinctFields(r)
  {
    EmailPattern.IsEmailMatchesPattern(value);
    EmailPattern.EmptyIsNotEmail();
    var required := if value == "" then AddValidationError(field, field + " is required", errs) else errs;
    if value == "" then
      RequiredThenInvalid(field, errs);
      AddValidationError(field, "Invalid email", required)
    else if !EmailPattern.IsEmail(value) then
      AddValidationError(field, "Invalid email", required)
    else
      required
  }

  /** The two messages an empty e-mail gets, added one after the other. */
  lemma RequiredThenInvalid(field: string, errs: seq<FieldErrors>)
    ensures var r := AddValidationError(field, "Invalid email", AddValidationError(field, field + " is required", errs));
      && (forall f :: MessagesOf(r, f) == MessagesOf(errs, f) + (if f == field then [field + " is required", "Invalid email"] else []))
      && (field !in Fields(errs) ==> r == errs + [FieldErrors(field, [field + " is required", "Invalid email"])])
  {
    var required := AddValidationError(field, field + " is required", errs);
    var r := AddValidationError(field, "Invalid email", required);
    forall f ensures MessagesOf(r, f) == MessagesOf(errs, f) + (if f == field then [field + " is required", "Invalid email"] else []) {
      TwoMessagesFor(field, errs, f);
    }
    if field !in Fields(errs) {
      TwoMessagesNewEntry(field, errs);
    }
  }

  lemma TwoMessagesFor(field: string, errs: seq<FieldErrors>, f: string)
    ensures var r := AddValidationError(field, "Invalid email", AddValidationError(field, field + " is required", errs));
      MessagesOf(r, f) == MessagesOf(errs, f) + (if f == field then [field + " is required", "Invalid email"] else [])
  {
    var required := AddValidationError(field, field + " is required", errs);
    var r := AddValidationError(field, "Invalid email", required);
    assert MessagesOf(r, f) == MessagesOf(required, f) + (if f == field then ["Invalid email"] else []);
    assert MessagesOf(required, f) == MessagesOf(errs, f) + (if f == field then [field + " is required"] else []);
  }

  lemma TwoMessagesNewEntry(field: string, errs: seq<FieldErrors>)
    requires field !in Fields(errs)
    ensures AddValidationError(field, "Invalid email", AddValidationError(field, field + " is required", errs))
      == errs + [FieldErrors(field, [field + " is required", "Invalid email"])]
  {
    var required := AddValidationError(field, field + " is required", errs);
    assert required == errs + [FieldErrors(field, [field + " is required"])];
    assert Fields(required)[|errs|] == field;
    assert FindField(required, field) == Some(|errs|);
    assert [field + " is required"] + ["Invalid email"] == [field + " is required", "Invalid email"];
  }

  /** The field names of the store errors, in input order. */
  function InputFields(storeErrors: seq<ModelValidationError>): seq<string> {
    seq(|storeErrors|, i requires 0 <= i < |storeErrors| => storeErrors[i].field)
  }

  /** The distinct elements of `s`, each at the place it first occurs. */
  function FirstSeen(s: seq<string>): seq<string> {
    if s == [] then []
    else
      var prefix := FirstSeen(s[..|s| - 1]);
      if s[|s| - 1] in prefix then prefix else prefix + [s[|s| - 1]]
  }

  /** The messages the store errors give for `field`, in input order. */
  function MessagesFor(storeErrors: seq<ModelValidationError>, field: string): seq<string> {
    if storeErrors == [] then []
    else
      var last := storeErrors[|storeErrors| - 1];
      MessagesFor(storeErrors[..|storeErrors| - 1], field) + (if last.field == field then [last.message] else [])
  }

  /** `StoreValidationErrorToDomainValidationError`, the left fold of
      `AddValidationError` over the store errors: one entry per distinct
      input field in first-seen order, each field's messages in input order,
      and one message per input error. */
  function StoreErrorsToDomainErrors(storeErrors: seq<ModelValidationError>): (r: seq<FieldErrors>)
    ensures DistinctFields(r)
    ensures Fields(r) == FirstSeen(InputFields(storeErrors))
    ensures forall f :: MessagesOf(r, f) == MessagesFor(storeErrors, f)
    ensures TotalMessages(r) == |storeErrors|
  {
    if storeErrors == [] then
      []
    else
      var last := storeErrors[|storeErrors| - 1];
      var prefix := storeErrors[..|storeErrors| - 1];
      assert InputFields(storeErrors)[..|storeErrors| - 1] == InputFields(prefix);
      AddValidationError(last.field, last.message, StoreErrorsToDomainErrors(prefix))
  }
}
