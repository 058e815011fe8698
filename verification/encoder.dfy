/** How a catalogue row becomes a vector-store document: its text, its
    metadata and its id. The same encoding is used when the store is built
    and when the retriever falls back to sampling the catalogue. */
module Encoder {
  import opened Wrappers
  import opened Strings
  import opened Catalog

  /** A vector-store document. */
  datatype Document = Document(id: string, text: string, metadata: map<string, string>)

  /** What a sentence says for a Yes/No flag: nothing when the flag is
      exactly `Yes`, a negation otherwise. */
  function Negation(flag: string): string {
    if flag == "Yes" then "" else "does not "
  }

  /** The labelled field lines that open the text. */
  function FieldLines(r: Row): seq<string> {
    [ "\n    Name: " + r.name,
      "\n    Type: " + r.assessmentType,
      "\n    Skills: " + r.skills,
      "\n    Description: " + r.description,
      "\n    Duration: " + r.duration,
      "\n    Remote Testing: " + r.remoteTesting,
      "\n    Adaptive/IRT Support: " + r.adaptiveSupport,
      "\n    URL: " + r.url ]
  }

  const CompleteAnd: string := " to complete and "
  const RemoteClause: string := "\n    support remote testing. It "
  const AdaptiveClause: string := " have adaptive/IRT support.\n    \n    "

  /** The summary sentences after the field lines, up to the duration. */
  function Summary(r: Row): string {
    "\n    \n    This assessment evaluates " + r.skills + " skills and is a "
      + r.assessmentType + " assessment type.\n    It takes " + r.duration
  }

  /** The text before "to complete and ". */
  function Opening(r: Row): string {
    Concat(FieldLines(r)) + Summary(r)
  }

  /** The text up to the remote-testing negation. */
  function LeadIn(r: Row): string {
    Opening(r) + CompleteAnd
  }

  /** The closing description paragraph. */
  function Closing(r: Row): string {
    r.description + "\n    "
  }

  /** The text from the adaptive-support negation on. */
  function AdaptiveTail(r: Row): string {
    Negation(r.adaptiveSupport) + AdaptiveClause + Closing(r)
  }

  /** The text from the remote-testing negation on. */
  function RemoteTail(r: Row): string {
    Negation(r.remoteTesting) + RemoteClause + AdaptiveTail(r)
  }

  /** The document text for a row. */
  function AssessmentText(r: Row): string {
    LeadIn(r) + RemoteTail(r)
  }

  /** Where the remote-testing sentence says whether it is supported. */
  function RemoteSlot(r: Row): nat {
    |LeadIn(r)|
  }

  /** Where the adaptive-support sentence says whether it is supported. */
  function AdaptiveSlot(r: Row): nat {
    |LeadIn(r)| + |Negation(r.remoteTesting)| + |RemoteClause|
  }

  /** Every field value appears in the text right after its label. */
  lemma LabelledFields(r: Row)
    ensures IsInfix("\n    Name: " + r.name, AssessmentText(r))
    ensures IsInfix("\n    Type: " + r.assessmentType, AssessmentText(r))
    ensures IsInfix("\n    Skills: " + r.skills, AssessmentText(r))
    ensures IsInfix("\n    Description: " + r.description, AssessmentText(r))
    ensures IsInfix("\n    Duration: " + r.duration, AssessmentText(r))
    ensures IsInfix("\n    Remote Testing: " + r.remoteTesting, AssessmentText(r))
    ensures IsInfix("\n    Adaptive/IRT Support: " + r.adaptiveSupport, AssessmentText(r))
    ensures IsInfix("\n    URL: " + r.url, AssessmentText(r))
  {
    FieldLinesInText(r);
    var lines := FieldLines(r);
    assert IsInfix(lines[0], AssessmentText(r));
    assert IsInfix(lines[1], AssessmentText(r));
    assert IsInfix(lines[2], AssessmentText(r));
    assert IsInfix(lines[3], AssessmentText(r));
    assert IsInfix(lines[4], AssessmentText(r));
    assert IsInfix(lines[5], AssessmentText(r));
    assert IsInfix(lines[6], AssessmentText(r));
    assert IsInfix(lines[7], AssessmentText(r));
  }

  /** Each field line is a piece of the text. */
  lemma FieldLinesInText(r: Row)
    ensures forall k :: 0 <= k < |FieldLines(r)| ==> IsInfix(FieldLines(r)[k], AssessmentText(r))
  {
    var lines := FieldLines(r);
    var t := AssessmentText(r);
    FieldsOpenText(r);
    forall k | 0 <= k < |lines| ensures IsInfix(lines[k], t) {
      ConcatPieceIsInfix(lines, k);
      InfixTransitive(lines[k], Concat(lines), t);
    }
  }

  /** The field lines open the text. */
  lemma FieldsOpenText(r: Row)
    ensures IsInfix(Concat(FieldLines(r)), AssessmentText(r))
  {
    PrefixIsInfix(Concat(FieldLines(r)), Summary(r));
    PrefixIsInfix(Opening(r), CompleteAnd);
    PrefixIsInfix(LeadIn(r), RemoteTail(r));
    InfixTransitive(Concat(FieldLines(r)), Opening(r), LeadIn(r));
    InfixTransitive(Concat(FieldLines(r)), LeadIn(r), AssessmentText(r));
  }

  /** Right after "to complete and " the text reads "does not support
      remote testing" exactly when the flag is not `Yes`, and "support
      remote testing" exactly when it is. */
  lemma RemoteSentence(r: Row)
    ensures RemoteSlot(r) >= |CompleteAnd|
    ensures HasAt(AssessmentText(r), CompleteAnd, RemoteSlot(r) - |CompleteAnd|)
    ensures r.remoteTesting == "Yes" <==> HasAt(AssessmentText(r), RemoteClause, RemoteSlot(r))
    ensures r.remoteTesting != "Yes" <==> HasAt(AssessmentText(r), "does not " + RemoteClause, RemoteSlot(r))
  {
    var t := AssessmentText(r);
    assert t == Opening(r) + CompleteAnd + RemoteTail(r);
    PieceAt(t, Opening(r), CompleteAnd, RemoteTail(r), RemoteSlot(r) - |CompleteAnd|);
    assert t == LeadIn(r) + (Negation(r.remoteTesting) + RemoteClause + AdaptiveTail(r));
    SlotReads(t, LeadIn(r), r.remoteTesting, RemoteClause, AdaptiveTail(r), RemoteSlot(r));
  }

  /** Right after "support remote testing. It " the text reads "does not
      have adaptive/IRT support" (with two spaces) exactly when the flag is
      not `Yes`, and " have adaptive/IRT support" exactly when it is. */
  lemma AdaptiveSentence(r: Row)
    ensures AdaptiveSlot(r) >= |RemoteClause|
    ensures HasAt(AssessmentText(r), RemoteClause, AdaptiveSlot(r) - |RemoteClause|)
    ensures r.adaptiveSupport == "Yes" <==> HasAt(AssessmentText(r), AdaptiveClause, AdaptiveSlot(r))
    ensures r.adaptiveSupport != "Yes" <==> HasAt(AssessmentText(r), "does not " + AdaptiveClause, AdaptiveSlot(r))
  {
    AdaptiveReads(AssessmentText(r), LeadIn(r), r.remoteTesting, r.adaptiveSupport, Closing(r),
                  AdaptiveSlot(r));
  }

  /** The adaptive-support reading in any text laid out like a document
      text from the remote-testing negation on. */
  lemma AdaptiveReads(t: string, lead: string, remote: string, adaptive: string, rest: string, slot: nat)
    requires t == lead + (Negation(remote) + RemoteClause + (Negation(adaptive) + AdaptiveClause + rest))
    requires slot == |lead| + |Negation(remote)| + |RemoteClause|
    ensures slot >= |RemoteClause|
    ensures HasAt(t, RemoteClause, slot - |RemoteClause|)
    ensures adaptive == "Yes" <==> HasAt(t, AdaptiveClause, slot)
    ensures adaptive != "Yes" <==> HasAt(t, "does not " + AdaptiveClause, slot)
  {
    var head := lead + Negation(remote);
    var tail := Negation(adaptive) + AdaptiveClause + rest;
    Regroup(lead, Negation(remote), RemoteClause, tail);
    PieceAt(t, head, RemoteClause, tail, slot - |RemoteClause|);
    SlotReads(t, head + RemoteClause, adaptive, AdaptiveClause, rest, slot);
  }

  lemma PieceAt(t: string, x: string, y: string, z: string, at: nat)
    requires t == x + y + z && at == |x|
    ensures HasAt(t, y, at)
  {
    assert forall j :: 0 <= j < |y| ==> t[|x| + j] == y[j];
  }

  lemma Regroup(a: string, b: string, c: string, d: string)
    ensures a + (b + c + d) == a + b + c + d
  {
  }

  /** The reading at a negation slot followed by a clause that does not
      start with `d`. */
  lemma SlotReads(t: string, lead: string, flag: string, clause: string, after: string, slot: nat)
    requires t == lead + (Negation(flag) + clause + after) && slot == |lead|
    requires |clause| > 0 && clause[0] != 'd'
    ensures flag == "Yes" <==> HasAt(t, clause, slot)
    ensures flag != "Yes" <==> HasAt(t, "does not " + clause, slot)
  {
    var n := Negation(flag) + clause;
    assert HasAt(t, n, |lead|) by {
      forall j | 0 <= j < |n| ensures t[|lead| + j] == n[j] {
        assert t[|lead| + j] == (n + after)[j];
      }
    }
    assert t[|lead| + 0] == n[0];
    if flag == "Yes" {
      assert n == clause;
      assert t[|lead| + 0] != ("does not " + clause)[0];
    } else {
      assert n == "does not " + clause;
      assert n[0] == 'd';
    }
  }

  /** The metadata keys, each naming one column. */
  const NameKey: string := "name"
  const TypeKey: string := "type"
  const SkillsKey: string := "skills"
  const DescriptionKey: string := "description"
  const DurationKey: string := "duration"
  const RemoteKey: string := "remote_testing"
  const AdaptiveKey: string := "adaptive_support"
  const UrlKey: string := "url"

  const MetadataKeys: set<string> :=
    {NameKey, TypeKey, SkillsKey, DescriptionKey, DurationKey, RemoteKey, AdaptiveKey, UrlKey}

  /** The metadata stored with a row's document. */
  function Metadata(r: Row): (m: map<string, string>)
    ensures m.Keys == MetadataKeys
  {
    map[NameKey := r.name, TypeKey := r.assessmentType, SkillsKey := r.skills,
        DescriptionKey := r.description, DurationKey := r.duration, RemoteKey := r.remoteTesting,
        AdaptiveKey := r.adaptiveSupport, UrlKey := r.url]
  }

  /** The row a metadata map describes, when it has all eight keys. */
  function RowOfMetadata(m: map<string, string>): Option<Row> {
    if MetadataKeys <= m.Keys then
      Some(Row(m[NameKey], m[UrlKey], m[RemoteKey], m[AdaptiveKey], m[TypeKey], m[SkillsKey],
               m[DescriptionKey], m[DurationKey]))
    else None
  }

  /** The metadata has eight distinct keys and gives every column back. */
  lemma MetadataRoundTrip(r: Row)
    ensures |Metadata(r).Keys| == 8
    ensures RowOfMetadata(Metadata(r)) == Some(r)
  {
    var m := Metadata(r);
    assert m[NameKey] == r.name && m[TypeKey] == r.assessmentType && m[SkillsKey] == r.skills;
    assert m[DescriptionKey] == r.description && m[DurationKey] == r.duration;
    assert m[RemoteKey] == r.remoteTesting && m[AdaptiveKey] == r.adaptiveSupport && m[UrlKey] == r.url;
    assert |MetadataKeys| == 8 by {
      var ks := [NameKey, TypeKey, SkillsKey, DescriptionKey, DurationKey, RemoteKey, AdaptiveKey, UrlKey];
      assert forall i, j :: 0 <= i < j < |ks| ==> ks[i] != ks[j];
      DistinctSeqSize(ks);
      assert MetadataKeys == set k | k in ks;
    }
  }

  lemma {:induction false} DistinctSeqSize<T>(xs: seq<T>)
    requires forall i, j :: 0 <= i < j < |xs| ==> xs[i] != xs[j]
    ensures |set x | x in xs| == |xs|
  {
    if xs != [] {
      var tail := xs[1..];
      DistinctSeqSize(tail);
      assert (set x | x in xs) == {xs[0]} + (set x | x in tail);
      assert xs[0] !in tail by {
        forall i | 0 <= i < |tail| ensures tail[i] != xs[0] {
          assert tail[i] == xs[i + 1];
        }
      }
    }
  }

  /** The document for the row at position `index` of the catalogue. */
  function EncodeRow(r: Row, index: nat): Document {
    Document(NatToString(index), AssessmentText(r), Metadata(r))
  }

  /** Two documents encoded at different positions have different ids. */
  lemma EncodedIdsDistinct(r1: Row, i1: nat, r2: Row, i2: nat)
    ensures EncodeRow(r1, i1).id == EncodeRow(r2, i2).id <==> i1 == i2
  {
    if NatToString(i1) == NatToString(i2) {
      NatToStringInjective(i1, i2);
    }
  }

  /** A document's metadata gives back the row it was encoded from. */
  lemma EncodedRowRecoverable(r: Row, index: nat)
    ensures RowOfMetadata(EncodeRow(r, index).metadata) == Some(r)
    ensures ParseNat(EncodeRow(r, index).id) == index
  {
    MetadataRoundTrip(r);
    ParseNatToString(index);
  }

  /** The documents and ids built from the whole catalogue, one per row, in
      row order. */
  method BuildDocuments(rows: seq<Row>) returns (docs: seq<Document>, ids: seq<string>)
    ensures |docs| == |ids| == |rows|
    ensures forall i :: 0 <= i < |rows| ==> docs[i] == EncodeRow(rows[i], i) && ids[i] == docs[i].id
    ensures forall i, j :: 0 <= i < j < |ids| ==> ids[i] != ids[j]
  {
    docs := MapWithIndex(rows, EncodeRow);
    ids := MapWithIndex(rows, (r: Row, i: nat) => NatToString(i));
    forall i | 0 <= i < |rows| ensures ids[i] == docs[i].id {
      EncodedId(rows[i], i);
    }
    PositionalIdsDistinct(ids);
  }

  lemma EncodedId(r: Row, index: nat)
    ensures EncodeRow(r, index).id == NatToString(index)
  {
  }

  /** Ids that spell out their own positions are pairwise distinct. */
  lemma PositionalIdsDistinct(ids: seq<string>)
    requires forall k :: 0 <= k < |ids| ==> ids[k] == NatToString(k)
    ensures forall i, j :: 0 <= i < j < |ids| ==> ids[i] != ids[j]
  {
    forall i, j | 0 <= i < j < |ids| ensures ids[i] != ids[j] {
      if ids[i] == ids[j] {
        NatToStringInjective(i, j);
      }
    }
  }
}
