/** The browser-side anonymizer: it turns a class roster (or a key file saved
    by an earlier run) into a map from real names to pseudonyms `Student-k`,
    lets the instructor reconcile transcript speakers that are not on the
    roster, and rewrites the transcript's speaker lines with the pseudonyms.
    Its output is the transcript format the participation engine reads. */
module Anonymizer {
  import opened Wrappers
  import opened Text
  import opened OrderedMaps
  import Segmentation

  /** The prefix every generated pseudonym carries. */
  const KeyPrefix: string := "Student-"
  /** The reconciliation choice that drops a name. */
  const Ignore: string := "IGNORE"
  /** The reconciliation choice, and pseudonym, of the instructor. */
  const Professor: string := "PROFESSOR"

  /** `text.split('\n')`. */
  function Lines(text: string): (r: seq<string>)
    ensures |r| >= 1
  {
    SplitOn(text, "\n")
  }

  predicate Distinct(s: seq<string>) {
    forall i, j :: 0 <= i < j < |s| ==> s[i] != s[j]
  }

  /** No value of the map contains a line break. */
  predicate NoNewlines(m: OMap) {
    forall k :: k in m.entries ==> '\n' !in m.entries[k]
  }

  // --- Which kind of file was uploaded ----------------------------------------

  /** A saved key file begins with a `Student-…,name` line: the uploaded file
      is read as one iff its first line, trimmed, contains a comma and starts
      with the pseudonym prefix. */
  predicate IsKeyFile(text: string) {
    var firstLine := Trim(Lines(text)[0]);
    Contains(firstLine, ",") && StartsWith(firstLine, KeyPrefix)
  }

  /** `lines.filter(line => line.trim() !== '')`. */
  function NonBlank(lines: seq<string>): seq<string>
    decreases |lines|
  {
    if lines == [] then []
    else
      var kept := NonBlank(lines[..|lines| - 1]);
      var line := lines[|lines| - 1];
      if Trim(line) != "" then kept + [line] else kept
  }

  /** The filter keeps exactly the non-blank lines. */
  lemma {:induction false} NonBlankSpec(lines: seq<string>, line: string)
    ensures line in NonBlank(lines) <==> line in lines && Trim(line) != ""
    decreases |lines|
  {
    if lines != [] {
      var front := lines[..|lines| - 1];
      NonBlankSpec(front, line);
      assert lines == front + [lines[|lines| - 1]];
    }
  }

  /** The filter keeps the lines in order: filtering a concatenation is
      concatenating the filtered parts. */
  lemma {:induction false} NonBlankAppend(a: seq<string>, b: seq<string>)
    ensures NonBlank(a + b) == NonBlank(a) + NonBlank(b)
    decreases |b|
  {
    if b == [] {
      assert a + b == a;
    } else {
      var front := b[..|b| - 1];
      NonBlankAppend(a, front);
      assert (a + b)[..|a + b| - 1] == a + front;
      assert (a + b)[|a + b| - 1] == b[|b| - 1];
    }
  }

  // --- Loading a saved key file ------------------------------------------------

  /** One key-file line `pseudonym,name`: when the first two comma fields are
      both non-empty, the trimmed name maps to the trimmed pseudonym. */
  function KeyEntry(line: string): Option<(string, string)> {
    var parts := SplitOn(line, ",");
    if parts[0] != "" && |parts| >= 2 && parts[1] != "" then Some((Trim(parts[1]), Trim(parts[0])))
    else None
  }

  function KeyEntries(lines: seq<string>): seq<Option<(string, string)>> {
    seq(|lines|, i requires 0 <= i < |lines| => KeyEntry(lines[i]))
  }

  /** The name map loaded from a key file: one `set` per non-blank line. */
  function KeyFileMap(text: string): OMap {
    FromEntries(KeyEntries(NonBlank(Lines(text))))
  }

  /** A line with two non-empty comma fields, and possibly more, is read as
      the second field mapping to the first, both trimmed. */
  lemma KeyEntryFields(pseudonym: string, name: string, rest: string)
    requires pseudonym != "" && name != "" && ',' !in pseudonym && ',' !in name
    ensures KeyEntry(pseudonym + "," + name) == Some((Trim(name), Trim(pseudonym)))
    ensures KeyEntry(pseudonym + "," + name + "," + rest) == Some((Trim(name), Trim(pseudonym)))
  {
    SplitOnChar(pseudonym, ',', name);
    SplitOnNoChar(name, ',');
    assert pseudonym + "," + name + "," + rest == pseudonym + [','] + (name + [','] + rest);
    SplitOnChar(pseudonym, ',', name + [','] + rest);
    SplitOnChar(name, ',', rest);
  }

  /** A line without a comma, or whose first or second field is empty, is
      skipped. */
  lemma KeyEntrySkipped(pseudonym: string, rest: string)
    requires ',' !in pseudonym
    ensures KeyEntry(pseudonym) == None
    ensures KeyEntry(pseudonym + ",") == None
    ensures KeyEntry("," + rest) == None
    ensures KeyEntry(pseudonym + ",," + rest) == None
  {
    assert pseudonym + ",," + rest == pseudonym + [','] + ("" + [','] + rest);
    SplitOnChar(pseudonym, ',', "" + [','] + rest);
    SplitOnNoChar(pseudonym, ',');
    SplitOnChar(pseudonym, ',', "");
    SplitOnChar("", ',', rest);
    assert "" + [','] + rest == "," + rest;
    assert pseudonym + [','] + "" == pseudonym + ",";
  }

  /** A name maps to the pseudonym of the last key-file line that names it. */
  lemma KeyFileLast(text: string, i: nat)
    requires var lines := NonBlank(Lines(text));
      && i < |lines| && KeyEntry(lines[i]).Some?
      && forall j :: i < j < |lines| && KeyEntry(lines[j]).Some? ==> KeyEntry(lines[j]).value.0 != KeyEntry(lines[i]).value.0
    ensures var e := KeyEntry(NonBlank(Lines(text))[i]).value;
      Get(KeyFileMap(text), e.0) == Some(e.1)
  {
    var lines := NonBlank(Lines(text));
    FromEntriesLast(KeyEntries(lines), i);
  }

  /** A name that no key-file line names is not in the map. */
  lemma KeyFileAbsent(text: string, name: string)
    requires forall line :: line in NonBlank(Lines(text)) && KeyEntry(line).Some? ==> KeyEntry(line).value.0 != name
    ensures Get(KeyFileMap(text), name) == None
  {
    var lines := NonBlank(Lines(text));
    var es := KeyEntries(lines);
    assert !Occurs(es, name) by {
      forall j | 0 <= j < |es| && es[j].Some? ensures es[j].value.0 != name {
        assert es[j] == KeyEntry(lines[j]) && lines[j] in lines;
      }
    }
    FromEntriesAbsent(es, name);
  }

  // --- Generating pseudonyms for a new roster -----------------------------------

  /** `Student-${k}`. */
  function Pseudonym(k: nat): string {
    KeyPrefix + ShowNat(k)
  }

  /** Different numbers give different pseudonyms. */
  lemma PseudonymInjective(a: nat, b: nat)
    requires Pseudonym(a) == Pseudonym(b)
    ensures a == b
  {
    assert ShowNat(a) == Pseudonym(a)[|KeyPrefix|..];
    assert ShowNat(b) == Pseudonym(b)[|KeyPrefix|..];
  }

  /** The roster's non-blank lines, without the first one when the file has
      a header row (no line is dropped from an empty list). */
  function RosterLines(text: string, hasHeader: bool): seq<string> {
    var lines := NonBlank(Lines(text));
    if hasHeader && lines != [] then lines[1..] else lines
  }

  /** The `k`-th roster line maps its trimmed first comma field to
      `Student-k`, unless that field is empty. */
  function RosterEntry(line: string, k: nat): Option<(string, string)> {
    var name := Trim(SplitOn(line, ",")[0]);
    if name != "" then Some((name, Pseudonym(k))) else None
  }

  /** Line `i` (from 0) of the roster is number `i + 1`, whether or not it
      yields a name. */
  function RosterEntries(lines: seq<string>): seq<Option<(string, string)>> {
    seq(|lines|, i requires 0 <= i < |lines| => RosterEntry(lines[i], i + 1))
  }

  /** The name map generated from a new roster. */
  function RosterMap(text: string, hasHeader: bool): OMap {
    FromEntries(RosterEntries(RosterLines(text, hasHeader)))
  }

  /** A name maps to `Student-k` for the last roster line `k` that names it;
      lines with an empty name still use up their number. */
  lemma RosterLast(text: string, hasHeader: bool, i: nat)
    requires var lines := RosterLines(text, hasHeader);
      && i < |lines| && Trim(SplitOn(lines[i], ",")[0]) != ""
      && forall j :: i < j < |lines| ==> Trim(SplitOn(lines[j], ",")[0]) != Trim(SplitOn(lines[i], ",")[0])
    ensures var name := Trim(SplitOn(RosterLines(text, hasHeader)[i], ",")[0]);
      Get(RosterMap(text, hasHeader), name) == Some(Pseudonym(i + 1))
  {
    var es := RosterEntries(RosterLines(text, hasHeader));
    FromEntriesLast(es, i);
  }

  /** Every value of a generated map is a pseudonym `Student-k` of one roster
      line, and that line names the key. */
  lemma RosterValue(text: string, hasHeader: bool, name: string)
    requires Has(RosterMap(text, hasHeader), name)
    ensures var lines := RosterLines(text, hasHeader);
      exists i :: 0 <= i < |lines| && RosterMap(text, hasHeader).entries[name] == Pseudonym(i + 1) && Trim(SplitOn(lines[i], ",")[0]) == name && name != ""
  {
    var es := RosterEntries(RosterLines(text, hasHeader));
    FromEntriesFrom(es, name);
  }

  /** Different names of a new roster get different pseudonyms. */
  lemma RosterPseudonymsDistinct(text: string, hasHeader: bool, a: string, b: string)
    requires Has(RosterMap(text, hasHeader), a) && Has(RosterMap(text, hasHeader), b) && a != b
    ensures RosterMap(text, hasHeader).entries[a] != RosterMap(text, hasHeader).entries[b]
  {
    var m, lines := RosterMap(text, hasHeader), RosterLines(text, hasHeader);
    RosterValue(text, hasHeader, a);
    RosterValue(text, hasHeader, b);
    var i :| 0 <= i < |lines| && m.entries[a] == Pseudonym(i + 1) && Trim(SplitOn(lines[i], ",")[0]) == a;
    var j :| 0 <= j < |lines| && m.entries[b] == Pseudonym(j + 1) && Trim(SplitOn(lines[j], ",")[0]) == b;
    if m.entries[a] == m.entries[b] {
      PseudonymInjective(i + 1, j + 1);
    }
  }

  // --- Unresolved transcript speakers -------------------------------------------

  /** A transcript line that names a speaker: it has a colon and is not a
      timing line. */
  predicate IsSpeakerLine(line: string) {
    Contains(line, ":") && !Contains(line, "-->")
  }

  /** The distinct speakers of the speaker lines, in order of first
      appearance (the insertion order of a `Set`). */
  function Speakers(lines: seq<string>): seq<string>
    decreases |lines|
  {
    if lines == [] then []
    else
      var seen := Speakers(lines[..|lines| - 1]);
      var line := lines[|lines| - 1];
      if IsSpeakerLine(line) && Segmentation.SpeakerLabel(line) !in seen then seen + [Segmentation.SpeakerLabel(line)]
      else seen
  }

  /** Some speaker line of `lines` names `speaker`. */
  ghost predicate SpokenIn(lines: seq<string>, speaker: string) {
    exists i :: 0 <= i < |lines| && IsSpeakerLine(lines[i]) && Segmentation.SpeakerLabel(lines[i]) == speaker
  }

  /** The scan lists each speaker of a speaker line, once. */
  lemma {:induction false} SpeakersSpec(lines: seq<string>, speaker: string)
    ensures Distinct(Speakers(lines))
    ensures speaker in Speakers(lines) <==> SpokenIn(lines, speaker)
    decreases |lines|
  {
    if lines != [] {
      var front := lines[..|lines| - 1];
      var last := lines[|lines| - 1];
      SpeakersSpec(front, speaker);
      assert forall j :: 0 <= j < |front| ==> front[j] == lines[j];
      assert SpokenIn(lines, speaker) <==> SpokenIn(front, speaker) || (IsSpeakerLine(last) && Segmentation.SpeakerLabel(last) == speaker);
    }
  }

  /** `[...speakers].filter(s => !nameMap.has(s) && s !== "PROFESSOR")`. */
  function Unresolved(m: OMap, speakers: seq<string>): seq<string>
    decreases |speakers|
  {
    if speakers == [] then []
    else
      var kept := Unresolved(m, speakers[..|speakers| - 1]);
      var s := speakers[|speakers| - 1];
      if !Has(m, s) && s != Professor then kept + [s] else kept
  }

  /** The filter keeps the distinct speakers the map does not know, other
      than the instructor. */
  lemma {:induction false} UnresolvedSpec(m: OMap, speakers: seq<string>, name: string)
    ensures name in Unresolved(m, speakers) <==> name in speakers && !Has(m, name) && name != Professor
    ensures Distinct(speakers) ==> Distinct(Unresolved(m, speakers))
    decreases |speakers|
  {
    if speakers != [] {
      var front := speakers[..|speakers| - 1];
      var last := speakers[|speakers| - 1];
      UnresolvedSpec(m, front, name);
      assert speakers == front + [last];
      if Distinct(speakers) {
        assert forall j :: 0 <= j < |front| ==> front[j] == speakers[j];
        UnresolvedSpec(m, front, last);
      }
    }
  }

  /** The names the instructor must reconcile are exactly the distinct
      speakers of the transcript that are neither in the map nor the
      instructor. */
  lemma UnresolvedNames(m: OMap, transcript: string, name: string)
    ensures Distinct(Unresolved(m, Speakers(Lines(transcript))))
    ensures name in Unresolved(m, Speakers(Lines(transcript)))
      <==> SpokenIn(Lines(transcript), name) && !Has(m, name) && name != Professor
  {
    SpeakersSpec(Lines(transcript), name);
    UnresolvedSpec(m, Speakers(Lines(transcript)), name);
  }

  // --- Reconciliation -------------------------------------------------------------

  /** One choice from the reconciliation form: an unresolved name and the
      value selected for it (`IGNORE`, `PROFESSOR` or a roster name). */
  type Choice = (string, string)

  /** The map after one choice: a roster-name choice copies that name's
      pseudonym when it has a non-empty one, `PROFESSOR` maps the name to
      the instructor, and a name already in the map is never touched. */
  function Reconciled(m: OMap, choice: Choice): OMap {
    var (unresolvedName, mappedName) := choice;
    if mappedName != Ignore && mappedName != Professor && !Has(m, unresolvedName) then
      match Get(m, mappedName)
      case Some(pseudonym) => if pseudonym != "" then Put(m, unresolvedName, pseudonym) else m
      case None => m
    else if mappedName == Professor && !Has(m, unresolvedName) then Put(m, unresolvedName, Professor)
    else m
  }

  /** The choices applied in form order. */
  function Reconcile(m: OMap, choices: seq<Choice>): OMap
    decreases |choices|
  {
    if choices == [] then m
    else Reconciled(Reconcile(m, choices[..|choices| - 1]), choices[|choices| - 1])
  }

  /** What one choice does to a name that is not yet in the map: `PROFESSOR`
      maps it to the instructor, `IGNORE` leaves the map alone, and a
      roster name lends its pseudonym when it has one. Nothing else changes. */
  lemma ReconciledChoice(m: OMap, u: string, mapped: string)
    requires !Has(m, u)
    ensures var r := Reconciled(m, (u, mapped));
      && (mapped == Professor ==> Get(r, u) == Some(Professor))
      && (mapped == Ignore ==> r == m)
      && (mapped != Ignore && mapped != Professor && Get(m, mapped).Some? && Get(m, mapped).value != "" ==> Get(r, u) == Get(m, mapped))
      && (mapped != Professor && (mapped == Ignore || Get(m, mapped).None? || Get(m, mapped) == Some("")) ==> r == m)
      && forall k :: k != u ==> Get(r, k) == Get(m, k)
  {
  }

  /** Reconciliation never overwrites an entry: every name already in the
      map keeps its pseudonym. */
  lemma {:induction false} ReconcileKeeps(m: OMap, choices: seq<Choice>, name: string)
    requires Has(m, name)
    ensures Get(Reconcile(m, choices), name) == Get(m, name)
    decreases |choices|
  {
    if choices != [] {
      ReconcileKeeps(m, choices[..|choices| - 1], name);
    }
  }

  /** A name added by reconciliation is the unresolved name of some
      choice. */
  lemma {:induction false} ReconcileAdds(m: OMap, choices: seq<Choice>, name: string)
    requires Has(Reconcile(m, choices), name) && !Has(m, name)
    ensures exists i :: 0 <= i < |choices| && choices[i].0 == name
    decreases |choices|
  {
    var front := choices[..|choices| - 1];
    if Has(Reconcile(m, front), name) {
      ReconcileAdds(m, front, name);
      var i :| 0 <= i < |front| && front[i].0 == name;
      assert choices[i] == front[i];
    } else {
      assert choices[|choices| - 1].0 == name;
    }
  }

  /** Every pseudonym after reconciliation is the instructor's or one that
      was already in the map. */
  lemma {:induction false} ReconcilePseudonyms(m: OMap, choices: seq<Choice>)
    ensures forall k :: k in Reconcile(m, choices).entries ==>
      Reconcile(m, choices).entries[k] == Professor || Reconcile(m, choices).entries[k] in m.entries.Values
    decreases |choices|
  {
    if choices != [] {
      var front := choices[..|choices| - 1];
      var (u, mapped) := choices[|choices| - 1];
      var before, r := Reconcile(m, front), Reconcile(m, choices);
      ReconcilePseudonyms(m, front);
      forall k | k in r.entries
        ensures r.entries[k] == Professor || r.entries[k] in m.entries.Values
      {
        if k in before.entries && r.entries[k] == before.entries[k] {
        } else if r.entries[k] != Professor {
          assert mapped in before.entries && r.entries[k] == before.entries[mapped];
        }
      }
    }
  }

  /** Reconciliation keeps the map well formed and only adds names after the
      existing ones. */
  lemma {:induction false} ReconcileKeys(m: OMap, choices: seq<Choice>)
    requires Valid(m)
    ensures Valid(Reconcile(m, choices))
    ensures m.keys <= Reconcile(m, choices).keys
    decreases |choices|
  {
    if choices != [] {
      ReconcileKeys(m, choices[..|choices| - 1]);
    }
  }

  // --- Line breaks never enter the map -------------------------------------------

  /** A pseudonym `Student-k` has no line break, no colon and no comma, and
      neither starts nor ends with whitespace. */
  lemma PseudonymShape(k: nat)
    ensures '\n' !in Pseudonym(k) && ':' !in Pseudonym(k) && ',' !in Pseudonym(k)
    ensures StartsWith(Pseudonym(k), KeyPrefix) && Trim(Pseudonym(k)) == Pseudonym(k)
  {
    var p, digits := Pseudonym(k), ShowNat(k);
    assert '\n' !in digits && ':' !in digits && ',' !in digits;
    assert p[0] == 'S' && p[|p| - 1] == digits[|digits| - 1];
    TrimUnchanged(p);
  }

  /** A piece of a transcript or roster line (its text before the first
      separator, trimmed) has no line break. */
  lemma FieldNoNewline(text: string, line: string, sep: string)
    requires line in Lines(text) && |sep| > 0
    ensures '\n' !in line
    ensures '\n' !in Trim(SplitOn(line, sep)[0])
  {
    SplitOnCharPieces(text, '\n');
    SplitOnFirstPrefix(line, sep);
    TrimSubset(SplitOn(line, sep)[0], '\n');
  }

  /** The names and pseudonyms generated from a roster have no line break. */
  lemma RosterNoNewlines(text: string, hasHeader: bool)
    ensures NoNewlines(RosterMap(text, hasHeader))
    ensures LineFree(RosterMap(text, hasHeader))
  {
    RosterStorable(text, hasHeader);
  }

  /** The names and pseudonyms loaded from a key file have no line break. */
  lemma KeyFileNoNewlines(text: string)
    ensures NoNewlines(KeyFileMap(text))
    ensures LineFree(KeyFileMap(text))
  {
    var lines := NonBlank(Lines(text));
    var es := KeyEntries(lines);
    var m := KeyFileMap(text);
    forall name | name in m.entries ensures '\n' !in name && '\n' !in m.entries[name] {
      FromEntriesFrom(es, name);
      var i :| 0 <= i < |es| && es[i] == Some((name, m.entries[name]));
      assert es[i] == KeyEntry(lines[i]);
      NonBlankSpec(Lines(text), lines[i]);
      FieldNoNewline(text, lines[i], ",");
      SplitOnPiecesFree(lines[i], ",", '\n');
      TrimSubset(SplitOn(lines[i], ",")[1], '\n');
    }
  }

  /** Reconciliation only copies pseudonyms or adds the instructor's, so no
      line break appears. */
  lemma ReconcileNoNewlines(m: OMap, choices: seq<Choice>)
    requires NoNewlines(m)
    ensures NoNewlines(Reconcile(m, choices))
  {
    ReconcilePseudonyms(m, choices);
  }

  // --- Rewriting the transcript -----------------------------------------------------

  /** `nameMap.get(speaker) || speaker`: the mapped pseudonym, unless it is
      missing or empty. */
  function DisplayName(m: OMap, speaker: string): string {
    match Get(m, speaker)
    case Some(pseudonym) => if pseudonym != "" then pseudonym else speaker
    case None => speaker
  }

  /** A speaker line becomes its (mapped) speaker and a colon; the speech is
      dropped. Every other line is kept. */
  function RewriteLine(m: OMap, line: string): string {
    if IsSpeakerLine(line) then DisplayName(m, Segmentation.SpeakerLabel(line)) + ":" else line
  }

  function Rewritten(m: OMap, lines: seq<string>): seq<string> {
    seq(|lines|, i requires 0 <= i < |lines| => RewriteLine(m, lines[i]))
  }

  /** The anonymized transcript: the rewritten lines joined by line breaks. */
  function RewriteTranscript(m: OMap, text: string): string {
    Join(Rewritten(m, Lines(text)), "\n")
  }

  /** A speaker line `name: speech` is rewritten to the display name of the
      trimmed `name` and a colon, whatever the speech. */
  lemma RewriteDropsSpeech(m: OMap, name: string, speech: string)
    requires ':' !in name && !Contains(name + ":" + speech, "-->")
    ensures RewriteLine(m, name + ":" + speech) == DisplayName(m, Trim(name)) + ":"
  {
    var line := name + ":" + speech;
    assert line == name + [':'] + speech;
    assert line[|name|] == ':';
    ContainsChar(line, ':');
    SplitOnChar(name, ':', speech);
  }

  /** Splitting the anonymized transcript into lines again gives one
      rewritten line per original line, in order: the line count is kept. */
  lemma RewriteTranscriptLines(m: OMap, text: string)
    requires NoNewlines(m)
    ensures SplitOn(RewriteTranscript(m, text), "\n") == Rewritten(m, Lines(text))
    ensures |SplitOn(RewriteTranscript(m, text), "\n")| == |Lines(text)|
  {
    var lines := Lines(text);
    var out := Rewritten(m, lines);
    forall i | 0 <= i < |out| ensures '\n' !in out[i] {
      FieldNoNewline(text, lines[i], ":");
    }
    JoinSplitChar(out, '\n');
  }

  /** The participation engine reads back the display name: for a speaker
      line whose display name has no colon and no surrounding whitespace (a
      pseudonym, say), the speaker label of the rewritten line is that name. */
  lemma RewrittenLabel(m: OMap, line: string)
    requires IsSpeakerLine(line)
    requires var d := DisplayName(m, Segmentation.SpeakerLabel(line)); ':' !in d && Trim(d) == d
    ensures Contains(RewriteLine(m, line), ":")
    ensures Segmentation.SpeakerLabel(RewriteLine(m, line)) == DisplayName(m, Segmentation.SpeakerLabel(line))
  {
    var d := DisplayName(m, Segmentation.SpeakerLabel(line));
    assert d + ":" == d + [':'] + "";
    assert (d + ":")[|d|] == ':';
    ContainsChar(d + ":", ':');
    SplitOnChar(d, ':', "");
  }

  /** Every pseudonym of the map can stand in a speaker label: it has no
      colon and no surrounding whitespace. */
  ghost predicate LabelSafe(m: OMap) {
    forall name :: name in m.entries ==> ':' !in m.entries[name] && Trim(m.entries[name]) == m.entries[name]
  }

  /** A speaker label itself has no colon and no surrounding whitespace. */
  lemma SpeakerLabelShape(line: string)
    ensures ':' !in Segmentation.SpeakerLabel(line)
    ensures Trim(Segmentation.SpeakerLabel(line)) == Segmentation.SpeakerLabel(line)
  {
    var field := SplitOn(line, ":")[0];
    SplitOnFirstClean(line, ":");
    ContainsChar(field, ':');
    TrimSubset(field, ':');
    TrimIdempotent(field);
  }

  /** With a label-safe map the participation engine reads back exactly the
      display name of every rewritten speaker line, mapped or not. */
  lemma RewrittenLabelSafe(m: OMap, line: string)
    requires LabelSafe(m) && IsSpeakerLine(line)
    ensures Segmentation.SpeakerLabel(RewriteLine(m, line)) == DisplayName(m, Segmentation.SpeakerLabel(line))
  {
    SpeakerLabelShape(line);
    RewrittenLabel(m, line);
  }

  /** The pseudonyms generated from a roster are label-safe. */
  lemma RosterLabelSafe(text: string, hasHeader: bool)
    ensures LabelSafe(RosterMap(text, hasHeader))
  {
    var m := RosterMap(text, hasHeader);
    forall name | name in m.entries ensures ':' !in m.entries[name] && Trim(m.entries[name]) == m.entries[name] {
      RosterValue(text, hasHeader, name);
      var i :| 0 <= i < |RosterLines(text, hasHeader)| && m.entries[name] == Pseudonym(i + 1);
      PseudonymShape(i + 1);
    }
  }

  /** Reconciliation keeps a map label-safe: it copies pseudonyms or adds the
      instructor's. */
  lemma ReconcileLabelSafe(m: OMap, choices: seq<Choice>)
    requires LabelSafe(m)
    ensures LabelSafe(Reconcile(m, choices))
  {
    var r := Reconcile(m, choices);
    ReconcilePseudonyms(m, choices);
    forall name | name in r.entries ensures ':' !in r.entries[name] && Trim(r.entries[name]) == r.entries[name] {
      if r.entries[name] == Professor {
        TrimUnchanged(Professor);
      } else {
        var owner :| owner in m.entries && m.entries[owner] == r.entries[name];
      }
    }
  }

  // --- Emitting the key file --------------------------------------------------------

  /** `nameMap.forEach((pseudonym, name) => …)` keeps the entries whose
      pseudonym is a generated one, as (pseudonym, name). */
  function PseudonymEntry(m: OMap, name: string): Option<(string, string)> {
    if name in m.entries && StartsWith(m.entries[name], KeyPrefix) then Some((m.entries[name], name)) else None
  }

  function PseudonymEntries(m: OMap): seq<Option<(string, string)>> {
    seq(|m.keys|, i requires 0 <= i < |m.keys| => PseudonymEntry(m, m.keys[i]))
  }

  /** `uniquePseudonyms`: pseudonym to the last name set for it. */
  function UniquePseudonyms(m: OMap): OMap {
    FromEntries(PseudonymEntries(m))
  }

  /** One `pseudonym,name` line per pseudonym, in the map's order. */
  function KeyFileLines(u: OMap): seq<string> {
    seq(|u.keys|, i requires 0 <= i < |u.keys| => u.keys[i] + "," + (if u.keys[i] in u.entries then u.entries[u.keys[i]] else ""))
  }

  /** The key file's text. */
  function KeyFileText(m: OMap): string {
    Join(KeyFileLines(UniquePseudonyms(m)), "\n")
  }

  /** The key file lists each generated pseudonym of the map exactly once,
      in the order in which the pseudonyms were first inserted. */
  lemma KeyFilePseudonyms(m: OMap, p: string)
    requires Valid(m)
    ensures Distinct(UniquePseudonyms(m).keys)
    ensures UniquePseudonyms(m).keys == KeysOf(PseudonymEntries(m))
    ensures p in UniquePseudonyms(m).keys <==> StartsWith(p, KeyPrefix) && p in m.entries.Values
  {
    var es := PseudonymEntries(m);
    FromEntriesKeys(es);
    KeysOfOccurs(es, p);
    if StartsWith(p, KeyPrefix) && p in m.entries.Values {
      var name :| name in m.entries && m.entries[name] == p;
      var i :| 0 <= i < |m.keys| && m.keys[i] == name;
      assert es[i] == Some((p, name));
    }
    if Occurs(es, p) {
      var i :| 0 <= i < |es| && es[i].Some? && es[i].value.0 == p;
      assert m.keys[i] in m.entries && m.entries[m.keys[i]] == p;
    }
  }

  /** The name on a pseudonym's line is the last name in the map's order
      that has that pseudonym, so an alias added by reconciliation replaces
      the roster name. */
  lemma KeyFileName(m: OMap, i: nat)
    requires i < |m.keys| && m.keys[i] in m.entries && StartsWith(m.entries[m.keys[i]], KeyPrefix)
    requires forall j :: i < j < |m.keys| && m.keys[j] in m.entries ==> m.entries[m.keys[j]] != m.entries[m.keys[i]]
    ensures Get(UniquePseudonyms(m), m.entries[m.keys[i]]) == Some(m.keys[i])
  {
    var es := PseudonymEntries(m);
    assert es[i] == Some((m.entries[m.keys[i]], m.keys[i]));
    forall j | i < j < |es| && es[j].Some? ensures es[j].value.0 != es[i].value.0 {
      assert es[j] == PseudonymEntry(m, m.keys[j]);
    }
    FromEntriesLast(es, i);
  }

  /** Each line of the key file pairs a generated pseudonym with a name that
      the map sends to it. */
  lemma UniqueEntry(m: OMap, p: string)
    requires p in UniquePseudonyms(m).entries
    ensures var name := UniquePseudonyms(m).entries[p];
      name in m.entries && m.entries[name] == p && StartsWith(p, KeyPrefix)
  {
    var es := PseudonymEntries(m);
    FromEntriesFrom(es, p);
    var i :| 0 <= i < |es| && es[i] == Some((p, UniquePseudonyms(m).entries[p]));
    assert es[i] == PseudonymEntry(m, m.keys[i]);
  }

  /** Names are usable as key-file fields: non-empty, without surrounding
      whitespace, commas or line breaks; pseudonyms likewise, except that
      they may be empty. */
  ghost predicate Storable(m: OMap) {
    forall name :: name in m.entries ==>
      && name != "" && Trim(name) == name && ',' !in name && '\n' !in name
      && Trim(m.entries[name]) == m.entries[name] && ',' !in m.entries[name] && '\n' !in m.entries[name]
  }

  /** No name and no pseudonym of the map holds a line break. Reconciled
      aliases may be empty or contain commas, but never a line break. */
  ghost predicate LineFree(m: OMap) {
    forall name :: name in m.entries ==> '\n' !in name && '\n' !in m.entries[name]
  }

  /** Reconciliation with choices whose unresolved names hold no line break
      keeps the map free of line breaks: the pseudonyms it adds are copies or
      the instructor's. */
  lemma ReconcileLineFree(m: OMap, choices: seq<Choice>)
    requires LineFree(m)
    requires forall i :: 0 <= i < |choices| ==> '\n' !in choices[i].0
    ensures LineFree(Reconcile(m, choices))
  {
    var r := Reconcile(m, choices);
    ReconcilePseudonyms(m, choices);
    forall name | name in r.entries ensures '\n' !in name && '\n' !in r.entries[name] {
      if !Has(m, name) {
        ReconcileAdds(m, choices, name);
      }
      if r.entries[name] != Professor {
        var owner :| owner in m.entries && m.entries[owner] == r.entries[name];
      }
    }
  }

  /** When names and pseudonyms hold no line break, the key file splits into
      exactly its `pseudonym,name` lines. */
  lemma KeyFileSplit(m: OMap)
    requires LineFree(m) && UniquePseudonyms(m).keys != []
    ensures Lines(KeyFileText(m)) == KeyFileLines(UniquePseudonyms(m))
  {
    var u := UniquePseudonyms(m);
    var lines := KeyFileLines(u);
    FromEntriesKeys(PseudonymEntries(m));
    forall i | 0 <= i < |lines| ensures '\n' !in lines[i] {
      UniqueEntry(m, u.keys[i]);
      assert lines[i] == u.keys[i] + "," + u.entries[u.keys[i]];
    }
    JoinSplitChar(lines, '\n');
  }

  /** A saved key file that lists at least one pseudonym is recognized as a
      key file when it is uploaded again. */
  lemma KeyFileDetected(m: OMap)
    requires LineFree(m) && UniquePseudonyms(m).keys != []
    ensures IsKeyFile(KeyFileText(m))
  {
    var u := UniquePseudonyms(m);
    KeyFileSplit(m);
    FromEntriesKeys(PseudonymEntries(m));
    var p := u.keys[0];
    UniqueEntry(m, p);
    assert Lines(KeyFileText(m))[0] == p + [','] + u.entries[p];
    KeyLineDetected(p, u.entries[p]);
  }

  /** A line `pseudonym,name` with a generated pseudonym passes the key-file
      test, whatever the name. */
  lemma KeyLineDetected(pseudonym: string, name: string)
    requires StartsWith(pseudonym, KeyPrefix)
    ensures var t := Trim(pseudonym + [','] + name); Contains(t, ",") && StartsWith(t, KeyPrefix)
  {
    assert pseudonym[0] == KeyPrefix[0];
    TrimKeepsFront(pseudonym, ',', name);
    var t := Trim(pseudonym + [','] + name);
    var front := pseudonym + [','];
    assert t[..|front|] == front;
    assert t[|pseudonym|] == front[|pseudonym|] == ',';
    ContainsChar(t, ',');
    assert t[..|KeyPrefix|] == front[..|KeyPrefix|] == pseudonym[..|KeyPrefix|];
  }

  /** Every key-file line has a comma, so none is blank. */
  lemma {:induction false} NonBlankAll(lines: seq<string>)
    requires forall i :: 0 <= i < |lines| ==> ',' in lines[i]
    ensures NonBlank(lines) == lines
    decreases |lines|
  {
    if lines != [] {
      var last := lines[|lines| - 1];
      NonBlankAll(lines[..|lines| - 1]);
      TrimNonEmpty(last, ',');
      assert lines == lines[..|lines| - 1] + [last];
    }
  }

  /** No line of a saved key file is blank. */
  lemma KeyFileNonBlank(m: OMap)
    requires LineFree(m) && UniquePseudonyms(m).keys != []
    ensures NonBlank(Lines(KeyFileText(m))) == KeyFileLines(UniquePseudonyms(m))
  {
    var u := UniquePseudonyms(m);
    var lines := KeyFileLines(u);
    KeyFileSplit(m);
    forall i | 0 <= i < |lines| ensures ',' in lines[i] {
      assert lines[i][|u.keys[i]|] == ',';
    }
    NonBlankAll(lines);
  }

  /** Each line of a saved key file is read back as its name mapping to its
      pseudonym. */
  lemma KeyFileEntries(m: OMap)
    requires Storable(m)
    ensures var u := UniquePseudonyms(m);
      && |KeyEntries(KeyFileLines(u))| == |u.keys|
      && forall i :: 0 <= i < |u.keys| ==> u.keys[i] in u.entries && KeyEntries(KeyFileLines(u))[i] == Some((u.entries[u.keys[i]], u.keys[i]))
  {
    var u := UniquePseudonyms(m);
    var lines := KeyFileLines(u);
    FromEntriesKeys(PseudonymEntries(m));
    var es := KeyEntries(lines);
    forall i | 0 <= i < |lines| ensures es[i] == Some((u.entries[u.keys[i]], u.keys[i])) {
      UniqueEntry(m, u.keys[i]);
      KeyEntryFields(u.keys[i], u.entries[u.keys[i]], "");
    }
  }

  /** Round trip: loading a saved key file maps each name on it back to its
      pseudonym. */
  lemma KeyFileReload(m: OMap, p: string)
    requires Storable(m) && p in UniquePseudonyms(m).entries
    ensures Get(KeyFileMap(KeyFileText(m)), UniquePseudonyms(m).entries[p]) == Some(p)
  {
    var u := UniquePseudonyms(m);
    FromEntriesKeys(PseudonymEntries(m));
    KeyFileNonBlank(m);
    KeyFileEntries(m);
    var es := KeyEntries(KeyFileLines(u));
    assert KeyFileMap(KeyFileText(m)) == FromEntries(es);
    var i :| 0 <= i < |u.keys| && u.keys[i] == p;
    forall j | i < j < |es| && es[j].Some? ensures es[j].value.0 != es[i].value.0 {
      UniqueEntry(m, u.keys[i]);
      UniqueEntry(m, u.keys[j]);
    }
    FromEntriesLast(es, i);
  }

  /** A generated map can be stored: roster names are trimmed, non-empty, and
      hold no comma or line break, and pseudonyms are `Student-k`. */
  lemma RosterStorable(text: string, hasHeader: bool)
    ensures Storable(RosterMap(text, hasHeader))
  {
    var m, lines := RosterMap(text, hasHeader), RosterLines(text, hasHeader);
    forall name | name in m.entries
      ensures name != "" && Trim(name) == name && ',' !in name && '\n' !in name
      ensures Trim(m.entries[name]) == m.entries[name] && ',' !in m.entries[name] && '\n' !in m.entries[name]
    {
      RosterValue(text, hasHeader, name);
      var i :| 0 <= i < |lines| && m.entries[name] == Pseudonym(i + 1) && Trim(SplitOn(lines[i], ",")[0]) == name && name != "";
      PseudonymShape(i + 1);
      var field := SplitOn(lines[i], ",")[0];
      TrimIdempotent(field);
      SplitOnFirstClean(lines[i], ",");
      ContainsChar(field, ',');
      TrimSubset(field, ',');
      NonBlankSpec(Lines(text), lines[i]);
      FieldNoNewline(text, lines[i], ",");
    }
  }

  /** Round trip for a new roster: the key file saved right after loading
      it, reloaded, gives every roster name its pseudonym again. */
  lemma RosterKeyFileRoundTrip(text: string, hasHeader: bool, name: string)
    requires Has(RosterMap(text, hasHeader), name)
    ensures Get(KeyFileMap(KeyFileText(RosterMap(text, hasHeader))), name) == Get(RosterMap(text, hasHeader), name)
  {
    var m := RosterMap(text, hasHeader);
    var p := m.entries[name];
    var u := UniquePseudonyms(m);
    RosterStorable(text, hasHeader);
    RosterValue(text, hasHeader, name);
    var i :| 0 <= i < |RosterLines(text, hasHeader)| && p == Pseudonym(i + 1);
    PseudonymShape(i + 1);
    FromEntriesKeys(RosterEntries(RosterLines(text, hasHeader)));
    KeyFilePseudonyms(m, p);
    FromEntriesKeys(PseudonymEntries(m));
    UniqueEntry(m, p);
    var other := u.entries[p];
    if other != name {
      RosterPseudonymsDistinct(text, hasHeader, name, other);
    }
    KeyFileReload(m, p);
  }

  // --- Element ids -------------------------------------------------------------------

  predicate IsAsciiAlnum(c: char) {
    ('a' <= c <= 'z') || ('A' <= c <= 'Z') || ('0' <= c <= '9')
  }

  /** `name.replace(/[^a-zA-Z0-9]/g, '_')`: the same length, ASCII letters
      and digits kept, every other character replaced by an underscore. */
  function SanitizeForId(name: string): (r: string)
    ensures |r| == |name|
    ensures forall i :: 0 <= i < |r| ==> IsAsciiAlnum(r[i]) || r[i] == '_'
    ensures forall i :: 0 <= i < |r| ==> (IsAsciiAlnum(name[i]) ==> r[i] == name[i]) && (!IsAsciiAlnum(name[i]) ==> r[i] == '_')
    decreases |name|
  {
    if name == [] then []
    else [if IsAsciiAlnum(name[0]) then name[0] else '_'] + SanitizeForId(name[1..])
  }

  /** A sanitized id is left alone by a second pass. */
  lemma SanitizeIdempotent(name: string)
    ensures SanitizeForId(SanitizeForId(name)) == SanitizeForId(name)
  {
    var r := SanitizeForId(name);
    var rr := SanitizeForId(r);
    assert forall i :: 0 <= i < |r| ==> rr[i] == r[i];
  }

  // --- The page's state ----------------------------------------------------------------

  /** What a run produces: the anonymized transcript and, for a new roster
      only, the key file to keep. */
  datatype Output = Output(transcript: string, keyFile: Option<string>)

  /** The name map a run starts from: loaded from a key file, or generated
      from a new roster. */
  function LoadedMap(text: string, hasHeader: bool): OMap {
    if IsKeyFile(text) then KeyFileMap(text) else RosterMap(text, hasHeader)
  }

  /** The downloads for a given name map. */
  function Anonymized(m: OMap, transcript: string, isNewRoster: bool): Output {
    Output(RewriteTranscript(m, transcript), if isNewRoster then Some(KeyFileText(m)) else None)
  }

  /** The key-file branch of `startProcess`: one `set` per non-blank line. */
  method LoadKeyFile(rosterOrKeyFileText: string) returns (nameMap: OMap)
    ensures nameMap == KeyFileMap(rosterOrKeyFileText)
    ensures Valid(nameMap) && NoNewlines(nameMap)
  {
    nameMap := Empty();
    var keyFileLines := NonBlank(Lines(rosterOrKeyFileText));
    var es := KeyEntries(keyFileLines);
    for i := 0 to |keyFileLines|
      invariant nameMap == FromEntries(es[..i])
    {
      assert es[..i + 1] == es[..i] + [es[i]];
      FromEntriesSnoc(es[..i], es[i]);
      var parts := SplitOn(keyFileLines[i], ",");
      var pseudonym := parts[0];
      if pseudonym != "" && |parts| >= 2 && parts[1] != "" {
        assert es[i] == Some((Trim(parts[1]), Trim(pseudonym)));
        nameMap := Put(nameMap, Trim(parts[1]), Trim(pseudonym));
      } else {
        assert es[i] == None;
      }
    }
    assert es[..|keyFileLines|] == es;
    KeyFileNoNewlines(rosterOrKeyFileText);
    FromEntriesKeys(KeyEntries(keyFileLines));
  }

  /** The new-roster branch of `startProcess`: the `index`-th remaining line
      (from 0) gets `Student-(index + 1)`. */
  method LoadRoster(rosterOrKeyFileText: string, hasHeader: bool) returns (nameMap: OMap)
    ensures nameMap == RosterMap(rosterOrKeyFileText, hasHeader)
    ensures Valid(nameMap) && NoNewlines(nameMap)
  {
    nameMap := Empty();
    var rosterLines := NonBlank(Lines(rosterOrKeyFileText));
    if hasHeader && rosterLines != [] {
      rosterLines := rosterLines[1..];
    }
    assert rosterLines == RosterLines(rosterOrKeyFileText, hasHeader);
    var es := RosterEntries(rosterLines);
    for index := 0 to |rosterLines|
      invariant nameMap == FromEntries(es[..index])
    {
      assert es[..index + 1] == es[..index] + [es[index]];
      FromEntriesSnoc(es[..index], es[index]);
      var name := Trim(SplitOn(rosterLines[index], ",")[0]);
      if name != "" {
        var pseudonym := Pseudonym(index + 1);
        assert es[index] == Some((name, pseudonym));
        nameMap := Put(nameMap, name, pseudonym);
      } else {
        assert es[index] == None;
      }
    }
    assert es[..|rosterLines|] == es;
    RosterNoNewlines(rosterOrKeyFileText, hasHeader);
    FromEntriesKeys(RosterEntries(rosterLines));
  }

  /** The speaker scan of `startProcess`: each speaker line adds its speaker
      to a set that keeps insertion order. */
  method ScanSpeakers(transcriptTextContent: string) returns (transcriptSpeakers: seq<string>)
    ensures transcriptSpeakers == Speakers(Lines(transcriptTextContent))
  {
    transcriptSpeakers := [];
    var lines := Lines(transcriptTextContent);
    for i := 0 to |lines|
      invariant transcriptSpeakers == Speakers(lines[..i])
    {
      var line := lines[i];
      if Contains(line, ":") && !Contains(line, "-->") {
        var speaker := Trim(SplitOn(line, ":")[0]);
        if speaker !in transcriptSpeakers {
          transcriptSpeakers := transcriptSpeakers + [speaker];
        }
      }
      assert lines[..i + 1][..i] == lines[..i];
    }
    assert lines[..|lines|] == lines;
  }

  /** The reconciliation loop of `finalizeProcess`: the form's choices in
      order. */
  method ApplyChoices(nameMap: OMap, choices: seq<Choice>) returns (reconciled: OMap)
    ensures reconciled == Reconcile(nameMap, choices)
  {
    reconciled := nameMap;
    for i := 0 to |choices|
      invariant reconciled == Reconcile(nameMap, choices[..i])
    {
      var (unresolvedName, mappedName) := choices[i];
      if mappedName != Ignore && mappedName != Professor && !Has(reconciled, unresolvedName) {
        var pseudonym := Get(reconciled, mappedName);
        if pseudonym.Some? && pseudonym.value != "" {
          reconciled := Put(reconciled, unresolvedName, pseudonym.value);
        }
      } else if mappedName == Professor && !Has(reconciled, unresolvedName) {
        reconciled := Put(reconciled, unresolvedName, Professor);
      }
      assert choices[..i + 1][..i] == choices[..i];
    }
    assert choices[..|choices|] == choices;
  }

  /** The rewrite loop of `finalizeProcess`, then the join. */
  method RewriteText(nameMap: OMap, transcriptTextContent: string) returns (newTranscriptContent: string)
    ensures newTranscriptContent == RewriteTranscript(nameMap, transcriptTextContent)
  {
    var transcriptLines := Lines(transcriptTextContent);
    var processedLines: seq<string> := [];
    for i := 0 to |transcriptLines|
      invariant |processedLines| == i
      invariant forall j :: 0 <= j < i ==> processedLines[j] == RewriteLine(nameMap, transcriptLines[j])
    {
      var line := transcriptLines[i];
      if Contains(line, ":") && !Contains(line, "-->") {
        var speaker := Trim(SplitOn(line, ":")[0]);
        var mapped := Get(nameMap, speaker);
        var pseudonym := if mapped.Some? && mapped.value != "" then mapped.value else speaker;
        processedLines := processedLines + [pseudonym + ":"];
      } else {
        processedLines := processedLines + [line];
      }
    }
    assert processedLines == Rewritten(nameMap, transcriptLines);
    newTranscriptContent := Join(processedLines, "\n");
  }

  /** The first key-file loop of `finalizeProcess`: the generated
      pseudonyms, each with the last name set for it. */
  method CollectPseudonyms(nameMap: OMap) returns (uniquePseudonyms: OMap)
    requires Valid(nameMap)
    ensures uniquePseudonyms == UniquePseudonyms(nameMap)
  {
    uniquePseudonyms := Empty();
    var es := PseudonymEntries(nameMap);
    for i := 0 to |nameMap.keys|
      invariant uniquePseudonyms == FromEntries(es[..i])
    {
      assert es[..i + 1] == es[..i] + [es[i]];
      FromEntriesSnoc(es[..i], es[i]);
      var name := nameMap.keys[i];
      var pseudonym := nameMap.entries[name];
      if StartsWith(pseudonym, KeyPrefix) {
        assert es[i] == Some((pseudonym, name));
        uniquePseudonyms := Put(uniquePseudonyms, pseudonym, name);
      } else {
        assert es[i] == None;
      }
    }
    assert es[..|nameMap.keys|] == es;
  }

  /** The second key-file loop of `finalizeProcess`: one `pseudonym,name`
      line per collected pseudonym. */
  method EmitKeyLines(uniquePseudonyms: OMap) returns (keyFileContent: seq<string>)
    requires Valid(uniquePseudonyms)
    ensures keyFileContent == KeyFileLines(uniquePseudonyms)
  {
    var lines := KeyFileLines(uniquePseudonyms);
    keyFileContent := [];
    for i := 0 to |uniquePseudonyms.keys|
      invariant keyFileContent == lines[..i]
    {
      var pseudonym := uniquePseudonyms.keys[i];
      assert pseudonym in uniquePseudonyms.keys;
      var name := uniquePseudonyms.entries[pseudonym];
      keyFileContent := keyFileContent + [pseudonym + "," + name];
      assert lines[..i + 1] == lines[..i] + [lines[i]];
    }
    assert lines[..|lines|] == lines;
  }

  /** The key file `finalizeProcess` offers for download. */
  method BuildKeyFile(nameMap: OMap) returns (keyFile: string)
    requires Valid(nameMap)
    ensures keyFile == KeyFileText(nameMap)
  {
    var uniquePseudonyms := CollectPseudonyms(nameMap);
    FromEntriesKeys(PseudonymEntries(nameMap));
    var keyFileContent := EmitKeyLines(uniquePseudonyms);
    keyFile := Join(keyFileContent, "\n");
  }

  /** The page's globals. The uploaded files' text, the header checkbox and
      the values chosen in the reconciliation form are passed in. */
  class Session {
    var transcriptTextContent: string
    var rosterNames: seq<string>
    var nameMap: OMap
    var isNewRoster: bool

    /** The map is well formed, holds no line break in a pseudonym, and
        starts with the names loaded from the uploaded file. */
    ghost predicate Valid()
      reads this
    {
      OrderedMaps.Valid(nameMap) && NoNewlines(nameMap) && rosterNames <= nameMap.keys
    }

    constructor()
      ensures Valid()
      ensures transcriptTextContent == "" && rosterNames == [] && nameMap == Empty() && !isNewRoster
    {
      transcriptTextContent := "";
      rosterNames := [];
      nameMap := Empty();
      isNewRoster := false;
    }

    /** `startProcess`: load the name map, list the unresolved speakers, and
        finish at once when there are none. */
    method StartProcess(rosterOrKeyFileText: string, transcriptText: string, hasHeader: bool)
      returns (unresolvedNames: seq<string>, output: Option<Output>)
      modifies this
      ensures Valid()
      ensures transcriptTextContent == transcriptText
      ensures isNewRoster == !IsKeyFile(rosterOrKeyFileText)
      ensures nameMap == LoadedMap(rosterOrKeyFileText, hasHeader)
      ensures rosterNames == nameMap.keys
      ensures unresolvedNames == Unresolved(nameMap, Speakers(Lines(transcriptText)))
      ensures output.Some? <==> unresolvedNames == []
      ensures output.Some? ==> output.value == Anonymized(nameMap, transcriptText, isNewRoster)
    {
      transcriptTextContent := transcriptText;
      var firstLine := Trim(Lines(rosterOrKeyFileText)[0]);
      if Contains(firstLine, ",") && StartsWith(firstLine, KeyPrefix) {
        isNewRoster := false;
        nameMap := LoadKeyFile(rosterOrKeyFileText);
      } else {
        isNewRoster := true;
        nameMap := LoadRoster(rosterOrKeyFileText, hasHeader);
      }
      rosterNames := nameMap.keys;
      var transcriptSpeakers := ScanSpeakers(transcriptTextContent);
      unresolvedNames := Unresolved(nameMap, transcriptSpeakers);
      if |unresolvedNames| > 0 {
        output := None;
      } else {
        var finished := FinalizeProcess([]);
        output := Some(finished);
      }
    }

    /** `finalizeProcess`: apply the reconciliation choices, rewrite the
        transcript, and emit the key file for a new roster. */
    method FinalizeProcess(choices: seq<Choice>) returns (output: Output)
      requires Valid()
      modifies this
      ensures Valid()
      ensures nameMap == Reconcile(old(nameMap), choices)
      ensures transcriptTextContent == old(transcriptTextContent) && rosterNames == old(rosterNames)
      ensures isNewRoster == old(isNewRoster)
      ensures output == Anonymized(nameMap, transcriptTextContent, isNewRoster)
    {
      nameMap := ApplyChoices(nameMap, choices);
      ReconcileKeys(old(nameMap), choices);
      ReconcileNoNewlines(old(nameMap), choices);
      var newTranscriptContent := RewriteText(nameMap, transcriptTextContent);
      var keyFile: Option<string> := None;
      if isNewRoster {
        var keyFileContent := BuildKeyFile(nameMap);
        keyFile := Some(keyFileContent);
      }
      output := Output(newTranscriptContent, keyFile);
    }
  }
}
