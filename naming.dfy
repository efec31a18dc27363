/** The base name of a renamed file: the referensi or the fallback built from the
    upload's name, and the sanitizing of that base into filename-safe characters. */
module Naming {
  import opened Wrappers
  import opened Referensi

  /** The outcome shown for each file. */
  datatype Status = Found | NotFound

  /** The status string stored in a result record. */
  function StatusText(st: Status): (t: string)
    ensures t != []
    ensures st == Found <==> t == "OK"
  {
    match st
    case Found => "OK"
    case NotFound => "No referensi found"
  }

  /** The index of the last `.` in `s`, if there is one. */
  function LastDot(s: string): (k: Option<nat>)
    ensures k.None? <==> '.' !in s
    ensures k.Some? ==> k.value < |s| && s[k.value] == '.' && '.' !in s[k.value + 1..]
  {
    if s == [] then None
    else if s[|s| - 1] == '.' then Some(|s| - 1)
    else
      var k := LastDot(s[..|s| - 1]);
      assert k.Some? ==> s[k.value + 1..] == s[..|s| - 1][k.value + 1..] + [s[|s| - 1]];
      assert k.None? ==> s == s[..|s| - 1] + [s[|s| - 1]];
      k
  }

  /** `name.rsplit('.', 1)[0]`: everything before the last `.`, or the whole name when
      it has none. */
  function Stem(name: string): string
  {
    match LastDot(name)
    case None => name
    case Some(k) => name[..k]
  }

  /** The stem is the whole name when it has no `.`; otherwise the name is the stem,
      a `.`, and an extension without `.`. */
  lemma StemSplitsAtLastDot(name: string)
    ensures '.' !in name ==> Stem(name) == name
    ensures '.' in name ==>
      var r := Stem(name);
      && |r| < |name| && r == name[..|r|] && name[|r|] == '.' && '.' !in name[|r| + 1..]
  {
  }

  /** The prefix of a fallback base name. */
  const Fallback: string := "NO-REFERENSI-"

  /** The base name and status chosen for one upload. */
  datatype Choice = Choice(base: string, status: Status)

  /** Lines 48-54 of app.py: a referensi that Python finds truthy (present and non-empty)
      becomes the base name; otherwise the base is the fallback prefix and the upload's
      name without its last extension. */
  function ChooseBase(referensi: Option<string>, uploadName: string): (c: Choice)
    ensures c.status == Found <==> referensi.Some? && referensi.value != []
    ensures c.status == Found ==> c.base == referensi.value
    ensures c.status == NotFound ==> c.base == Fallback + Stem(uploadName)
  {
    if referensi.Some? && referensi.value != [] then Choice(referensi.value, Found)
    else Choice(Fallback + Stem(uploadName), NotFound)
  }

  /** For what the extractor returns, the truthiness test is the same as "not None". */
  lemma FoundIffExtracted(doc: Document, uploadName: string)
    ensures ChooseBase(ExtractReferensi(doc), uploadName).status == Found <==> ExtractReferensi(doc).Some?
  {
  }

  /** The fallback base is the prefix and the upload's name with its last extension
      cut off: the name is that stem, a `.` and a dot-free extension, or it has no `.`
      and the stem is all of it. */
  lemma FallbackKeepsName(uploadName: string)
    ensures var c := ChooseBase(None, uploadName);
      var stem := c.base[|Fallback|..];
      && c.status == NotFound
      && c.base == Fallback + stem
      && ('.' !in uploadName ==> stem == uploadName)
      && ('.' in uploadName ==>
            && uploadName == stem + "." + uploadName[|stem| + 1..]
            && '.' !in uploadName[|stem| + 1..])
  {
    var c := ChooseBase(None, uploadName);
    var stem := c.base[|Fallback|..];
    assert stem == Stem(uploadName);
    StemSplitsAtLastDot(uploadName);
    if '.' in uploadName {
      assert uploadName == uploadName[..|stem|] + [uploadName[|stem|]] + uploadName[|stem| + 1..];
    }
  }

  /** The characters `[A-Za-z0-9-_.]` that the sanitizer keeps. */
  predicate IsSafe(c: char)
  {
    || 'A' <= c <= 'Z' || 'a' <= c <= 'z' || '0' <= c <= '9'
    || c == '-' || c == '_' || c == '.'
  }

  /** `re.sub(r"[^A-Za-z0-9\-\_\.]", "_", s)`: every character outside the safe set
      becomes `_`, every safe character stays where it is. */
  function Sanitize(s: string): (r: string)
    ensures |r| == |s|
  {
    if s == [] then []
    else [if IsSafe(s[0]) then s[0] else '_'] + Sanitize(s[1..])
  }

  /** Each character is kept if it is safe and replaced by `_` otherwise, so every
      character of the result is safe. */
  lemma {:induction false} SanitizeAt(s: string)
    ensures forall k :: 0 <= k < |s| ==> Sanitize(s)[k] == (if IsSafe(s[k]) then s[k] else '_')
    ensures forall k :: 0 <= k < |s| ==> IsSafe(Sanitize(s)[k])
  {
    if s != [] {
      SanitizeAt(s[1..]);
      forall k | 1 <= k < |s| ensures Sanitize(s)[k] == Sanitize(s[1..])[k - 1] { }
    }
  }

  /** A string made of safe characters only is left as it is. */
  lemma SanitizeKeepsSafe(s: string)
    requires forall k :: 0 <= k < |s| ==> IsSafe(s[k])
    ensures Sanitize(s) == s
  {
    SanitizeAt(s);
  }

  /** Sanitizing twice is sanitizing once. */
  lemma SanitizeIdempotent(s: string)
    ensures Sanitize(Sanitize(s)) == Sanitize(s)
  {
    SanitizeAt(s);
    SanitizeKeepsSafe(Sanitize(s));
  }
}
