/** The string identifiers of lineage nodes, and when they can be told apart. */
module LineageIds {

  function FileId(fileId: string): string { "file::" + fileId }
  function ColumnId(step: string, column: string): string { "col::" + step + "::" + column }
  function StepId(step: string): string { "step::" + step }
  function OutputId(step: string, filename: string): string { "output::" + step + "::" + filename }

  datatype NodeRef =
    | FileRef(fileId: string)
    | ColumnRef(step: string, column: string)
    | StepRef(step: string)
    | OutputRef(step: string, filename: string)
    | NoRef

  /** The position of the first "::" in `s`, or the length of `s`. */
  function FirstSeparator(s: string): (k: nat)
    ensures k <= |s|
  {
    if s == "" || (|s| > 1 && s[0] == ':' && s[1] == ':') then 0 else 1 + FirstSeparator(s[1..])
  }

  /** Splits at the first separator. */
  function Split(s: string): (string, string) {
    var k := FirstSeparator(s);
    if k + 2 <= |s| then (s[..k], s[k + 2..]) else (s, "")
  }

  /** Reads an identifier back. */
  function Decode(id: string): NodeRef {
    if |id| >= 6 && id[..6] == "file::" then FileRef(id[6..])
    else if |id| >= 6 && id[..6] == "step::" then StepRef(id[6..])
    else if |id| >= 5 && id[..5] == "col::" then
      var (step, column) := Split(id[5..]);
      ColumnRef(step, column)
    else if |id| >= 8 && id[..8] == "output::" then
      var (step, filename) := Split(id[8..]);
      OutputRef(step, filename)
    else NoRef
  }

  lemma {:induction false} SplitJoined(step: string, rest: string)
    requires ':' !in step
    ensures Split(step + "::" + rest) == (step, rest)
  {
    SeparatorAt(step, rest);
    var s := step + "::" + rest;
    assert s[..|step|] == step && s[|step| + 2..] == rest;
  }

  lemma {:induction false} SeparatorAt(step: string, rest: string)
    requires ':' !in step
    ensures FirstSeparator(step + "::" + rest) == |step|
  {
    var s := step + "::" + rest;
    if step == "" {
      assert s[0] == ':' && s[1] == ':';
    } else {
      assert s[0] == step[0] && s[1..] == step[1..] + "::" + rest;
      assert ':' !in step[1..];
      SeparatorAt(step[1..], rest);
    }
  }

  /** Identifiers built from step names without a colon are read back exactly, even
      when file, column or output names contain separators; so no two of them meet. */
  lemma DecodeFile(fileId: string)
    ensures Decode(FileId(fileId)) == FileRef(fileId)
  {
    var id := FileId(fileId);
    assert id[..6] == "file::" && id[6..] == fileId;
  }

  lemma DecodeStep(step: string)
    ensures Decode(StepId(step)) == StepRef(step)
  {
    var id := StepId(step);
    assert id[..6] == "step::" && id[6..] == step;
    assert "step::"[0] != "file::"[0];
  }

  lemma DecodeColumn(step: string, column: string)
    requires ':' !in step
    ensures Decode(ColumnId(step, column)) == ColumnRef(step, column)
  {
    var id := ColumnId(step, column);
    assert id[..5] == "col::" && id[5..] == step + "::" + column;
    assert id[0] == 'c';
    assert "file::"[0] == 'f' && "step::"[0] == 's';
    if |id| >= 6 {
      assert id[..6][0] == id[0];
    }
    SplitJoined(step, column);
  }

  lemma DecodeOutput(step: string, filename: string)
    requires ':' !in step
    ensures Decode(OutputId(step, filename)) == OutputRef(step, filename)
  {
    var id := OutputId(step, filename);
    assert id[..8] == "output::" && id[8..] == step + "::" + filename;
    assert id[0] == 'o' && id[..6][0] == id[0] && id[..5][0] == id[0];
    assert "file::"[0] == 'f' && "step::"[0] == 's' && "col::"[0] == 'c';
    SplitJoined(step, filename);
  }

  lemma MeetingIsPrefix(s: string, c: string, t: string, d: string)
    requires ColumnId(s, c) == ColumnId(t, d) && |s| <= |t|
    ensures s + "::" <= t + "::"
  {
    var left, right := s + "::" + c, t + "::" + d;
    assert ColumnId(s, c)[5..] == left && ColumnId(t, d)[5..] == right;
    assert left[..|s| + 2] == s + "::";
    assert right[..|s| + 2] == (t + "::")[..|s| + 2];
  }

  lemma PrefixMeets(s: string, t: string)
    requires s + "::" <= t + "::"
    ensures exists c, d :: ColumnId(s, c) == ColumnId(t, d)
  {
    var c := (t + "::")[|s| + 2..];
    assert s + "::" + c == t + "::";
    assert ColumnId(s, c) == "col::" + (s + "::" + c);
    assert ColumnId(t, "") == "col::" + (t + "::");
  }

  /** Two step names share a column identifier exactly when one name followed by the
      separator starts the other followed by the separator. */
  lemma ColumnIdsMeet(s: string, t: string)
    ensures (exists c, d :: ColumnId(s, c) == ColumnId(t, d)) <==> (s + "::" <= t + "::" || t + "::" <= s + "::")
  {
    hide ColumnId;
    if c, d :| ColumnId(s, c) == ColumnId(t, d) {
      if |s| <= |t| { MeetingIsPrefix(s, c, t, d); } else { MeetingIsPrefix(t, d, s, c); }
    }
    if s + "::" <= t + "::" {
      PrefixMeets(s, t);
    } else if t + "::" <= s + "::" {
      PrefixMeets(t, s);
    }
  }

  /** Step names with a separator inside are such a case. */
  lemma SeparatorInNameCollides()
    ensures ColumnId("a", "b::c") == ColumnId("a::b", "c")
  {
    assert ColumnId("a", "b::c") == "col::a::b::c";
    assert ColumnId("a::b", "c") == "col::a::b::c";
  }
}
