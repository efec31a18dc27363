/** The per-file loop of app.py: each upload, in order, gets a sanitized base name,
    a `.pdf` name made distinct from earlier files with the same base by a `_N`
    suffix counted in `name_counts`, and a record in `results`. */
module Batch {
  import opened Wrappers
  import opened Referensi
  import opened Naming

  type Bytes = seq<bv8>

  /** One uploaded file: its display name and its raw bytes. */
  datatype Upload = Upload(name: string, bytes: Bytes)

  /** One entry of `results`. */
  datatype Record = Record(originalName: string, newName: string, status: string, bytes: Bytes)

  function Digit(d: nat): (c: char)
    requires d < 10
    ensures '0' <= c <= '9' && c as int - '0' as int == d
  {
    (d + '0' as int) as char
  }

  /** `str(n)`: the decimal digits of `n`. */
  function Decimal(n: nat): (r: string)
    ensures r != []
  {
    if n < 10 then [Digit(n)] else Decimal(n / 10) + [Digit(n % 10)]
  }

  /** The number a string of decimal digits denotes. */
  function DigitsValue(s: string): int
  {
    if s == [] then 0
    else DigitsValue(s[..|s| - 1]) * 10 + (s[|s| - 1] as int - '0' as int)
  }

  /** Reading back the digits of `str(n)` gives `n`. */
  lemma {:induction false} DecimalRoundTrip(n: nat)
    ensures DigitsValue(Decimal(n)) == n
  {
    if n >= 10 {
      var r := Decimal(n);
      assert r[..|r| - 1] == Decimal(n / 10);
      DecimalRoundTrip(n / 10);
    }
  }

  /** Distinct numbers have distinct decimal forms. */
  lemma DecimalInjective(m: nat, n: nat)
    requires Decimal(m) == Decimal(n)
    ensures m == n
  {
    DecimalRoundTrip(m);
    DecimalRoundTrip(n);
  }

  /** Lines 61-64 of app.py: the name of the `count`-th file with base `safe`. */
  function NewName(safe: string, count: nat): string
    requires count >= 1
  {
    if count == 1 then safe + ".pdf" else safe + "_" + Decimal(count - 1) + ".pdf"
  }

  /** Two files with the same base get the same name exactly when they have the same
      occurrence number. */
  lemma NewNameInjective(safe: string, m: nat, n: nat)
    requires m >= 1 && n >= 1
    ensures NewName(safe, m) == NewName(safe, n) <==> m == n
  {
    var a, b := NewName(safe, m), NewName(safe, n);
    if m > 1 && n > 1 && a == b {
      assert a[|safe| + 1..|a| - 4] == Decimal(m - 1);
      assert b[|safe| + 1..|b| - 4] == Decimal(n - 1);
      DecimalInjective(m - 1, n - 1);
    }
  }

  /** `extract_referensi_from_bytes`, where `pdf` stands for pdfplumber: what it makes of
      an upload's bytes. */
  function Extractor(pdf: Bytes -> Document): Bytes -> Option<string>
  {
    b => ExtractReferensi(pdf(b))
  }

  /** Lines 47-54 of app.py for one upload: the base name and status chosen from what
      `extract` makes of its bytes. */
  function FileChoice(extract: Bytes -> Option<string>, u: Upload): Choice
  {
    ChooseBase(extract(u.bytes), u.name)
  }

  /** The choices made for a run of uploads, in upload order. */
  function FileChoices(extract: Bytes -> Option<string>, uploads: seq<Upload>): (r: seq<Choice>)
    ensures |r| == |uploads|
  {
    if uploads == [] then []
    else FileChoices(extract, uploads[..|uploads| - 1]) + [FileChoice(extract, uploads[|uploads| - 1])]
  }

  /** Choice `i` is the choice made for upload `i`. */
  lemma {:induction false} FileChoicesAt(extract: Bytes -> Option<string>, uploads: seq<Upload>, i: nat)
    requires i < |uploads|
    ensures FileChoices(extract, uploads)[i] == FileChoice(extract, uploads[i])
  {
    if i < |uploads| - 1 {
      FileChoicesAt(extract, uploads[..|uploads| - 1], i);
    }
  }

  /** One more upload adds its choice at the end. */
  lemma FileChoicesSnoc(extract: Bytes -> Option<string>, uploads: seq<Upload>, i: nat)
    requires i < |uploads|
    ensures uploads[..i + 1] == uploads[..i] + [uploads[i]]
    ensures FileChoices(extract, uploads[..i + 1]) == FileChoices(extract, uploads[..i]) + [FileChoice(extract, uploads[i])]
  {
    assert uploads[..i + 1][..i] == uploads[..i];
  }

  /** Line 57 of app.py for a run of choices: the chosen bases, sanitized. */
  function SafeBases(choices: seq<Choice>): (r: seq<string>)
    ensures |r| == |choices|
  {
    if choices == [] then []
    else SafeBases(choices[..|choices| - 1]) + [Sanitize(choices[|choices| - 1].base)]
  }

  /** Base `i` is the sanitized base of choice `i`. */
  lemma {:induction false} SafeBasesAt(choices: seq<Choice>, i: nat)
    requires i < |choices|
    ensures SafeBases(choices)[i] == Sanitize(choices[i].base)
  {
    if i < |choices| - 1 {
      SafeBasesAt(choices[..|choices| - 1], i);
    }
  }

  /** The bases of the first `k` choices are the first `k` bases. */
  lemma {:induction false} SafeBasesPrefix(choices: seq<Choice>, k: nat)
    requires k <= |choices|
    ensures SafeBases(choices)[..k] == SafeBases(choices[..k])
    decreases |choices|
  {
    if k == |choices| {
      assert choices[..k] == choices;
    } else {
      var init := choices[..|choices| - 1];
      SafeBasesPrefix(init, k);
      assert init[..k] == choices[..k];
    }
  }

  /** `name_counts[safe_base] += 1` on a `defaultdict(int)`: the count of `b`, taken as
      0 when `b` is absent, goes up by one. */
  function Bump(counts: map<string, nat>, b: string): (r: map<string, nat>)
    ensures r.Keys == counts.Keys + {b}
    ensures r[b] == 1 + if b in counts then counts[b] else 0
    ensures forall c :: c in counts && c != b ==> r[c] == counts[c]
  {
    counts[b := (if b in counts then counts[b] else 0) + 1]
  }

  /** `name_counts` after a run of bases: the defaultdict bumped once per file. */
  function CountsOf(bases: seq<string>): map<string, nat>
  {
    if bases == [] then map[] else Bump(CountsOf(bases[..|bases| - 1]), bases[|bases| - 1])
  }

  /** The name that the last of a run of bases gets, from the count of its base once it
      is counted: its base with `.pdf` for the first file with that base, `_N.pdf` when
      N earlier files had it. */
  function LastName(bases: seq<string>): string
    requires bases != []
  {
    var b := bases[|bases| - 1];
    NewName(b, CountsOf(bases)[b])
  }

  /** The record that upload `u` must get when `choices` are the choices made for it and
      for every upload before it: its own name, status and bytes, and the name its base
      earns among those files. */
  function ExpectedRecord(u: Upload, choices: seq<Choice>): Record
    requires choices != []
  {
    Record(u.name, LastName(SafeBases(choices)), StatusText(choices[|choices| - 1].status), u.bytes)
  }

  /** The records of a run of uploads, given the choice made for each. */
  function ExpectedRecords(uploads: seq<Upload>, choices: seq<Choice>): (r: seq<Record>)
    requires |choices| == |uploads|
    ensures |r| == |uploads|
  {
    if uploads == [] then []
    else
      ExpectedRecords(uploads[..|uploads| - 1], choices[..|choices| - 1])
        + [ExpectedRecord(uploads[|uploads| - 1], choices)]
  }

  /** Record `i` is what upload `i` gets given the choices up to it. */
  lemma {:induction false} ExpectedRecordsAt(uploads: seq<Upload>, choices: seq<Choice>, i: nat)
    requires |choices| == |uploads| && i < |uploads|
    ensures ExpectedRecords(uploads, choices)[i] == ExpectedRecord(uploads[i], choices[..i + 1])
  {
    if i < |uploads| - 1 {
      var init := choices[..|choices| - 1];
      ExpectedRecordsAt(uploads[..|uploads| - 1], init, i);
      assert init[..i + 1] == choices[..i + 1];
    } else {
      assert choices[..i + 1] == choices;
    }
  }

  /** The counts hold exactly the bases seen, each with the number of files that had it. */
  lemma {:induction false} CountsAreMultiplicities(bases: seq<string>)
    ensures forall b :: b in CountsOf(bases) <==> b in bases
    ensures forall b :: b in CountsOf(bases) ==> CountsOf(bases)[b] == multiset(bases)[b]
  {
    if bases != [] {
      var init, last := bases[..|bases| - 1], bases[|bases| - 1];
      CountsAreMultiplicities(init);
      assert bases == init + [last];
      assert multiset(bases) == multiset(init) + multiset{last};
      forall b ensures b in bases <==> b in init || b == last {
        if b in bases {
          var k :| 0 <= k < |bases| && bases[k] == b;
          if k < |bases| - 1 {
            assert init[k] == b;
          }
        }
      }
    }
  }

  /** One more choice adds its sanitized base at the end. */
  lemma SafeBasesSnoc(choices: seq<Choice>, c: Choice)
    ensures SafeBases(choices + [c]) == SafeBases(choices) + [Sanitize(c.base)]
  {
    assert (choices + [c])[..|choices|] == choices;
  }

  /** One more file with base `b` bumps the count of `b`. */
  lemma CountsSnoc(bases: seq<string>, b: string)
    ensures CountsOf(bases + [b]) == Bump(CountsOf(bases), b)
  {
    assert (bases + [b])[..|bases|] == bases;
  }

  /** One more upload adds its record at the end. */
  lemma ExpectedRecordsSnoc(uploads: seq<Upload>, choices: seq<Choice>, u: Upload, c: Choice)
    requires |choices| == |uploads|
    ensures ExpectedRecords(uploads + [u], choices + [c]) == ExpectedRecords(uploads, choices) + [ExpectedRecord(u, choices + [c])]
  {
    assert (uploads + [u])[..|uploads|] == uploads;
    assert (choices + [c])[..|choices|] == choices;
  }

  /** The state after file `i`, as the state before it with the next base counted and
      the next record appended. */
  lemma LoopStep(extract: Bytes -> Option<string>, uploads: seq<Upload>, i: nat)
    requires i < |uploads|
    ensures var before := FileChoices(extract, uploads[..i]);
      var c := FileChoice(extract, uploads[i]);
      var safe := Sanitize(c.base);
      var next := Bump(CountsOf(SafeBases(before)), safe);
      && CountsOf(SafeBases(FileChoices(extract, uploads[..i + 1]))) == next
      && ExpectedRecords(uploads[..i + 1], FileChoices(extract, uploads[..i + 1]))
           == ExpectedRecords(uploads[..i], before) + [Record(uploads[i].name, NewName(safe, next[safe]), StatusText(c.status), uploads[i].bytes)]
  {
    var before := FileChoices(extract, uploads[..i]);
    var c := FileChoice(extract, uploads[i]);
    var safe := Sanitize(c.base);
    FileChoicesSnoc(extract, uploads, i);
    SafeBasesSnoc(before, c);
    CountsSnoc(SafeBases(before), safe);
    ExpectedRecordsSnoc(uploads[..i], before, uploads[i], c);
  }

  /** One pass of the loop body of app.py for the upload `uploaded`: its base name and
      status, the bumped count of its base, and its record. */
  method RenameOne(extract: Bytes -> Option<string>, uploaded: Upload, nameCounts: map<string, nat>)
      returns (record: Record, newCounts: map<string, nat>)
    ensures var c := FileChoice(extract, uploaded);
      var safe := Sanitize(c.base);
      && newCounts == Bump(nameCounts, safe)
      && record == Record(uploaded.name, NewName(safe, newCounts[safe]), StatusText(c.status), uploaded.bytes)
  {
    var raw := uploaded.bytes;
    var referensi := extract(raw);
    var choice := ChooseBase(referensi, uploaded.name);
    var safeBase := Sanitize(choice.base);

    newCounts := nameCounts[safeBase := (if safeBase in nameCounts then nameCounts[safeBase] else 0) + 1];
    var newFilename;
    if newCounts[safeBase] == 1 {
      newFilename := safeBase + ".pdf";
    } else {
      newFilename := safeBase + "_" + Decimal(newCounts[safeBase] - 1) + ".pdf";
    }
    record := Record(uploaded.name, newFilename, StatusText(choice.status), raw);
  }

  /** The per-file loop of app.py, with `extract` in place of `extract_referensi_from_bytes`
      (in app.py, `Extractor(pdf)`). Returns `results` and the final `name_counts`. */
  method RenameBatch(extract: Bytes -> Option<string>, uploads: seq<Upload>)
      returns (results: seq<Record>, nameCounts: map<string, nat>)
    ensures results == ExpectedRecords(uploads, FileChoices(extract, uploads))
    ensures nameCounts == CountsOf(SafeBases(FileChoices(extract, uploads)))
  {
    results := [];
    nameCounts := map[];
    assert uploads[..0] == [];
    for i := 0 to |uploads|
      invariant results == ExpectedRecords(uploads[..i], FileChoices(extract, uploads[..i]))
      invariant nameCounts == CountsOf(SafeBases(FileChoices(extract, uploads[..i])))
    {
      var c := FileChoice(extract, uploads[i]);
      var safe := Sanitize(c.base);
      LoopStep(extract, uploads, i);
      var record, counts := RenameOne(extract, uploads[i], nameCounts);
      assert counts == Bump(nameCounts, safe);
      assert record == Record(uploads[i].name, NewName(safe, counts[safe]), StatusText(c.status), uploads[i].bytes);
      nameCounts := counts;
      results := results + [record];
    }
    assert uploads[..|uploads|] == uploads;
  }

  /** Record `i` carries upload `i`'s name, bytes and status, and the name earned by
      the number of files up to and including it that share its base. */
  lemma RecordAt(uploads: seq<Upload>, choices: seq<Choice>, i: nat)
    requires |choices| == |uploads| && i < |uploads|
    ensures var r := ExpectedRecords(uploads, choices)[i];
      var b := Sanitize(choices[i].base);
      var seen := multiset(SafeBases(choices)[..i + 1])[b];
      && r.originalName == uploads[i].name && r.bytes == uploads[i].bytes
      && r.status == StatusText(choices[i].status)
      && seen >= 1 && r.newName == NewName(b, seen)
  {
    ExpectedRecordsAt(uploads, choices, i);
    var prefix := SafeBases(choices)[..i + 1];
    SafeBasesPrefix(choices, i + 1);
    SafeBasesAt(choices, i);
    assert prefix[i] == Sanitize(choices[i].base);
    CountsAreMultiplicities(prefix);
  }

  /** Each record of the batch belongs to the upload at the same position: its name,
      its unmodified bytes, the status of its choice, and the name earned by the number
      of files up to and including it whose safe base is its own. */
  lemma RenameBatchRecords(extract: Bytes -> Option<string>, uploads: seq<Upload>, i: nat)
    requires i < |uploads|
    ensures var choices := FileChoices(extract, uploads);
      var r := ExpectedRecords(uploads, choices)[i];
      var c := FileChoice(extract, uploads[i]);
      var b := Sanitize(c.base);
      var seen := multiset(SafeBases(choices)[..i + 1])[b];
      && r.originalName == uploads[i].name && r.bytes == uploads[i].bytes
      && r.status == StatusText(c.status)
      && seen >= 1 && r.newName == NewName(b, seen)
  {
    FileChoicesAt(extract, uploads, i);
    RecordAt(uploads, FileChoices(extract, uploads), i);
  }

  /** A later file with the same base has seen more files with that base. */
  lemma LaterCountIsLarger(bases: seq<string>, i: nat, j: nat)
    requires i < j < |bases| && bases[i] == bases[j]
    ensures bases[i] in CountsOf(bases[..i + 1]) && bases[j] in CountsOf(bases[..j + 1])
    ensures CountsOf(bases[..i + 1])[bases[i]] < CountsOf(bases[..j + 1])[bases[j]]
  {
    var b := bases[i];
    var early, late := bases[..i + 1], bases[..j + 1];
    assert late == early + bases[i + 1..j] + [b];
    assert early[i] == b && late[j] == b;
    assert multiset(late)[b] == multiset(early)[b] + multiset(bases[i + 1..j])[b] + 1;
    CountsAreMultiplicities(early);
    CountsAreMultiplicities(late);
  }

  /** Among a run of bases, two files with the same base get different names. */
  lemma SameBaseLastNames(bases: seq<string>, i: nat, j: nat)
    requires i < j < |bases| && bases[i] == bases[j]
    ensures LastName(bases[..i + 1]) != LastName(bases[..j + 1])
  {
    LaterCountIsLarger(bases, i, j);
    assert bases[..i + 1][i] == bases[i] && bases[..j + 1][j] == bases[j];
    NewNameInjective(bases[i], CountsOf(bases[..i + 1])[bases[i]], CountsOf(bases[..j + 1])[bases[j]]);
  }

  /** Among a run of choices, two files whose bases sanitize alike get different names. */
  lemma SameBaseChoiceNames(choices: seq<Choice>, i: nat, j: nat)
    requires i < j < |choices|
    requires Sanitize(choices[i].base) == Sanitize(choices[j].base)
    ensures LastName(SafeBases(choices[..i + 1])) != LastName(SafeBases(choices[..j + 1]))
  {
    var bases := SafeBases(choices);
    SafeBasesPrefix(choices, i + 1);
    SafeBasesPrefix(choices, j + 1);
    SafeBasesAt(choices, i);
    SafeBasesAt(choices, j);
    SameBaseLastNames(bases, i, j);
  }

  /** Files that end up with the same base get pairwise distinct names. */
  lemma SameBaseDistinctNames(uploads: seq<Upload>, choices: seq<Choice>, i: nat, j: nat)
    requires |choices| == |uploads| && i < j < |uploads|
    requires Sanitize(choices[i].base) == Sanitize(choices[j].base)
    ensures ExpectedRecords(uploads, choices)[i].newName != ExpectedRecords(uploads, choices)[j].newName
  {
    ExpectedRecordsAt(uploads, choices, i);
    ExpectedRecordsAt(uploads, choices, j);
    SameBaseChoiceNames(choices, i, j);
  }

  /** Names are not unique across different bases: the second file with base `b` is
      named like the first file with base `b_1`. */
  lemma NamesCanCollide(b: string)
    ensures LastName([b, b]) == LastName([b, b, b + "_1"]) == b + "_1.pdf"
  {
    assert [b, b][..1] == [b] && [b, b, b + "_1"][..2] == [b, b] && [b][..0] == [];
    assert b != b + "_1";
    assert CountsOf([b]) == Bump(map[], b) == map[b := 1];
    assert CountsOf([b, b]) == Bump(map[b := 1], b) == map[b := 2];
    assert CountsOf([b, b, b + "_1"]) == Bump(map[b := 2], b + "_1");
    assert Decimal(1) == "1";
  }

  /** With no readable document, an upload whose name has no `.` falls back to the
      prefix and its whole name. */
  lemma UnreadableFallsBack(name: string, bytes: Bytes)
    requires '.' !in name
    ensures FileChoice(Extractor((b: Bytes) => Unreadable), Upload(name, bytes)) == Choice(Fallback + name, NotFound)
  {
    var extract := Extractor((b: Bytes) => Unreadable);
    assert extract(bytes) == ExtractReferensi(Unreadable) == None;
    StemSplitsAtLastDot(name);
  }

  /** A safe base stays safe with `_1` appended. */
  lemma SafeSuffix(base: string)
    requires forall k :: 0 <= k < |base| ==> IsSafe(base[k])
    ensures Sanitize(base + "_1") == base + "_1"
  {
    var t := base + "_1";
    forall k | 0 <= k < |t| ensures IsSafe(t[k]) {
      if k >= |base| {
        assert t[k] in "_1";
      } else {
        assert t[k] == base[k];
      }
    }
    SanitizeKeepsSafe(t);
  }

  /** The bases of two files falling back to `b` and one falling back to `b_1`, for a
      `b` of safe characters. */
  lemma SafeFallbackBases(base: string)
    requires forall k :: 0 <= k < |base| ==> IsSafe(base[k])
    ensures var c, d := Choice(base, NotFound), Choice(base + "_1", NotFound);
      && SafeBases([c, c]) == [base, base]
      && SafeBases([c, c, d]) == [base, base, base + "_1"]
  {
    var c, d := Choice(base, NotFound), Choice(base + "_1", NotFound);
    SanitizeKeepsSafe(base);
    SafeSuffix(base);
    SafeBasesSnoc([], c);
    assert [] + [c] == [c] && [c] + [c] == [c, c] && [c, c] + [d] == [c, c, d];
    SafeBasesSnoc([c], c);
    SafeBasesSnoc([c, c], d);
  }

  /** Whatever the uploads, a second file with a safe base `b` and a first file with
      base `b_1` both end up named `b_1.pdf`. */
  lemma CollidingRecords(uploads: seq<Upload>, base: string)
    requires |uploads| == 3 && forall k :: 0 <= k < |base| ==> IsSafe(base[k])
    ensures var c, d := Choice(base, NotFound), Choice(base + "_1", NotFound);
      var records := ExpectedRecords(uploads, [c, c, d]);
      && records[1].newName == base + "_1.pdf"
      && records[2].newName == base + "_1.pdf"
  {
    var c, d := Choice(base, NotFound), Choice(base + "_1", NotFound);
    var choices := [c, c, d];
    ExpectedRecordsAt(uploads, choices, 1);
    ExpectedRecordsAt(uploads, choices, 2);
    assert choices[..2] == [c, c] && choices[..3] == choices;
    SafeFallbackBases(base);
    NamesCanCollide(base);
    assert ExpectedRecords(uploads, choices)[1].newName == LastName([base, base]);
    assert ExpectedRecords(uploads, choices)[2].newName == LastName([base, base, base + "_1"]);
  }

  /** With no readable document, uploads named `a`, `a` and `a_1` (any dot-free name
      in place of `a`) all fall back. */
  lemma UnreadableChoices(name: string, bytes: Bytes)
    requires '.' !in name
    ensures var u, v := Upload(name, bytes), Upload(name + "_1", bytes);
      FileChoices(Extractor((b: Bytes) => Unreadable), [u, u, v])
        == [Choice(Fallback + name, NotFound), Choice(Fallback + name, NotFound), Choice(Fallback + name + "_1", NotFound)]
  {
    var extract := Extractor((b: Bytes) => Unreadable);
    var u, v := Upload(name, bytes), Upload(name + "_1", bytes);
    UnreadableFallsBack(name, bytes);
    assert '.' !in name + "_1" by {
      assert forall k :: 0 <= k < |name + "_1"| ==> (name + "_1")[k] != '.';
    }
    UnreadableFallsBack(name + "_1", bytes);
    assert Fallback + (name + "_1") == Fallback + name + "_1";
    FileChoicesAt(extract, [u, u, v], 0);
    FileChoicesAt(extract, [u, u, v], 1);
    FileChoicesAt(extract, [u, u, v], 2);
  }

  /** With no readable document, uploads named `a`, `a` and `a_1` (any dot-free name
      of safe characters in place of `a`) all fall back, and the second and third get
      the same name `NO-REFERENSI-a_1.pdf`. */
  lemma FallbackNamesCollide(name: string, bytes: Bytes)
    requires '.' !in name && forall k :: 0 <= k < |name| ==> IsSafe(name[k])
    ensures var uploads := [Upload(name, bytes), Upload(name, bytes), Upload(name + "_1", bytes)];
      var records := ExpectedRecords(uploads, FileChoices(Extractor((b: Bytes) => Unreadable), uploads));
      && records[1].newName == Fallback + name + "_1.pdf"
      && records[2].newName == Fallback + name + "_1.pdf"
  {
    UnreadableChoices(name, bytes);
    var base := Fallback + name;
    assert forall k :: 0 <= k < |base| ==> IsSafe(base[k]) by {
      assert forall k :: 0 <= k < |Fallback| ==> IsSafe(Fallback[k]);
    }
    CollidingRecords([Upload(name, bytes), Upload(name, bytes), Upload(name + "_1", bytes)], base);
  }
}
