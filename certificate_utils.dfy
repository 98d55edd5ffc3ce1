/** The rules of src/utils/certificateUtils.ts that do not depend on the
    browser: which parsed file contents an import accepts, the messages it
    reports, and the name given to an exported file. */
module CertificateUtils {

  import opened Optional
  import Text
  import Seqs

  /** A value as `JSON.parse` returns it. */
  datatype Json =
    | JNull
    | JBool(b: bool)
    | JNumber(x: real)
    | JString(s: string)
    | JArray(items: seq<Json>)
    | JObject(fields: map<string, Json>)

  /** JavaScript truthiness of a parsed value: false, 0, the empty string
      and null are falsy; arrays and objects, even empty, are truthy. */
  predicate Truthy(j: Json)
  {
    match j
    case JNull => false
    case JBool(b) => b
    case JNumber(x) => x != 0.0
    case JString(s) => s != ""
    case JArray(_) => true
    case JObject(_) => true
  }

  /** `cert.key` is truthy: only an object can carry the property (a
      missing property reads as the falsy `undefined`, and reading one
      from null throws, which the import reports the same way). */
  predicate HasTruthy(j: Json, key: string)
  {
    j.JObject? && key in j.fields && Truthy(j.fields[key])
  }

  /** The per-element check of the import. */
  predicate HasRequiredFields(j: Json)
  {
    HasTruthy(j, "id") && HasTruthy(j, "name") && HasTruthy(j, "provider") && HasTruthy(j, "userId")
  }

  const ImportFailed := "Failed to import certificates: Invalid file format"

  /** What the import does with the file: hand the parsed array to the
      callback and report how many entries it had, or report the failure
      and call nothing. */
  datatype ImportOutcome =
    | Imported(certificates: seq<Json>, message: string)
    | Rejected(message: string)

  function ImportedMessage(n: nat): string
  {
    "Imported " + Text.NatToString(n) + " certificates"
  }

  /** The `reader.onload` handler; `parsed` is None when `JSON.parse`
      throws. Anything but an array, or an array with one entry lacking a
      truthy id, name, provider or userId, is rejected as a whole. */
  function ImportCertificates(parsed: Option<Json>): (r: ImportOutcome)
    ensures r.Imported? <==>
              && parsed.Some? && parsed.value.JArray?
              && forall i :: 0 <= i < |parsed.value.items| ==> HasRequiredFields(parsed.value.items[i])
    ensures r.Imported? ==> r.certificates == parsed.value.items
    ensures r.Imported? ==> r.message == ImportedMessage(|r.certificates|)
    ensures r.Rejected? ==> r.message == ImportFailed
  {
    match parsed
    case Some(JArray(items)) =>
      if Seqs.Find((j: Json) => !HasRequiredFields(j), items).None? then
        Imported(items, ImportedMessage(|items|))
      else Rejected(ImportFailed)
    case _ => Rejected(ImportFailed)
  }

  /** All or nothing: one bad entry rejects the file whatever the other
      entries are. */
  lemma OneBadEntryRejectsAll(before: seq<Json>, bad: Json, after: seq<Json>)
    requires !HasRequiredFields(bad)
    ensures ImportCertificates(Some(JArray(before + [bad] + after))).Rejected?
  {
    assert (before + [bad] + after)[|before|] == bad;
  }

  /** Two files import exactly when their concatenation does, and the
      concatenation then reports the sum of the counts. */
  lemma ImportConcat(a: seq<Json>, b: seq<Json>)
    ensures ImportCertificates(Some(JArray(a + b))).Imported? <==>
              ImportCertificates(Some(JArray(a))).Imported? && ImportCertificates(Some(JArray(b))).Imported?
  {
    var ab := a + b;
    if forall i :: 0 <= i < |ab| ==> HasRequiredFields(ab[i]) {
      assert forall i :: 0 <= i < |a| ==> ab[i] == a[i];
      assert forall i :: 0 <= i < |b| ==> ab[|a| + i] == b[i];
    }
    if (forall i :: 0 <= i < |a| ==> HasRequiredFields(a[i])) && (forall i :: 0 <= i < |b| ==> HasRequiredFields(b[i])) {
      forall i | 0 <= i < |ab| ensures HasRequiredFields(ab[i]) {
        if i >= |a| {
          assert ab[i] == b[i - |a|];
        }
      }
    }
  }

  /** An empty array is accepted and reports zero certificates. */
  lemma EmptyImport()
    ensures ImportCertificates(Some(JArray([]))) == Imported([], "Imported 0 certificates")
  {
    assert Text.NatToString(0) == "0";
    assert ImportedMessage(0) == "Imported 0 certificates";
  }

  /** The number in the success message is the number of entries passed
      on. */
  lemma ImportedMessageCount(n: nat)
    ensures exists digits :: ImportedMessage(n) == "Imported " + digits + " certificates"
                             && Text.IsDigits(digits) && Text.DigitsValue(digits) == n
  {
    Text.NatToStringRoundTrip(n);
  }

  const ExportPrefix := "certificates-export-"
  const ExportSuffix := ".json"

  /** `link.download`: the date part (before the 'T') of the ISO
      timestamp `iso` framed as a file name. */
  function ExportFileName(iso: string): (name: string)
    ensures |name| >= |ExportPrefix| + |ExportSuffix|
    ensures name[..|ExportPrefix|] == ExportPrefix
    ensures name[|name| - |ExportSuffix|..] == ExportSuffix
    ensures var day := name[|ExportPrefix|..|name| - |ExportSuffix|];
            'T' !in day && day <= iso
  {
    var day := Text.BeforeFirst(iso, 'T');
    var name := ExportPrefix + day + ExportSuffix;
    assert name[|ExportPrefix|..|name| - |ExportSuffix|] == day;
    name
  }

  /** For an ISO timestamp, a 'T'-free date, a 'T' and the time, the file
      is named after the date. */
  lemma {:induction false} ExportFileNameOfTimestamp(date: string, time: string)
    requires 'T' !in date
    ensures ExportFileName(date + "T" + time) == ExportPrefix + date + ExportSuffix
  {
    BeforeFirstOfDate(date, time);
  }

  lemma {:induction false} BeforeFirstOfDate(date: string, time: string)
    requires 'T' !in date
    ensures Text.BeforeFirst(date + "T" + time, 'T') == date
  {
    if date != [] {
      assert (date + "T" + time)[1..] == date[1..] + "T" + time;
      assert date[0] in date;
      BeforeFirstOfDate(date[1..], time);
      assert date == [date[0]] + date[1..];
    }
  }
}
