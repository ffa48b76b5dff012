/** What the lines of a stream block mean: its event name, its data, and the texts read from JSON fields. */
module BlockFields {
  import opened PyText
  import opened Json
  import opened TraceEvents

  // ---- Lines ----

  /** The lines of a block make it up, and hold no newline. */
  lemma LinesMakeTheBlock(block: string)
    ensures JoinWith("\n", Lines(block)) == block
    ensures Lines(block) != [] && forall i :: 0 <= i < |Lines(block)| ==> '\n' !in Lines(block)[i]
  {
    JoinOfSplit(block, '\n');
  }

  /** And only they do: a block made of some lines has these lines. */
  lemma BlockOf(lines: seq<string>)
    requires lines != [] && forall i :: 0 <= i < |lines| ==> '\n' !in lines[i]
    ensures Lines(JoinWith("\n", lines)) == lines
  {
    SplitOfJoin(lines, '\n');
  }

  // ---- The event name ----

  /** The last `event:` line names the block; without one it is a message. */
  lemma {:induction false} EventNameIsLast(before: seq<string>, name: string, after: seq<string>)
    requires forall i :: 0 <= i < |after| ==> !StartsWith(after[i], "event:")
    ensures EventName(after) == "message"
    ensures EventName(before + ["event:" + name] + after) == Strip(name)
    decreases |after|
  {
    var lines := before + ["event:" + name] + after;
    if after == [] {
      assert lines == before + ["event:" + name];
      assert ("event:" + name)[6..] == name;
    } else {
      EventNameIsLast(before, name, after[..|after| - 1]);
      assert lines[..|lines| - 1] == before + ["event:" + name] + after[..|after| - 1];
    }
  }

  // ---- The data ----

  /** The data of consecutive lines is their data in order. */
  lemma {:induction false} DataPartsAppend(a: seq<string>, b: seq<string>)
    ensures DataParts(a + b) == DataParts(a) + DataParts(b)
    decreases |b|
  {
    if b == [] {
      assert a + b == a;
    } else {
      assert (a + b)[..|a + b| - 1] == a + b[..|b| - 1];
      DataPartsAppend(a, b[..|b| - 1]);
      var last := b[|b| - 1];
      if StartsWith(last, "data:") {
        Associate(DataParts(a), DataParts(b[..|b| - 1]), [Strip(last[5..])]);
      }
    }
  }

  /** A `data:` line gives its stripped value, and any other line gives nothing. */
  lemma DataPartsOne(line: string)
    ensures !StartsWith(line, "data:") ==> DataParts([line]) == []
    ensures forall value :: line == "data:" + value ==> DataParts([line]) == [Strip(value)]
  {
    assert [line][..0] == [];
    forall value | line == "data:" + value ensures DataParts([line]) == [Strip(value)] {
      assert line[5..] == value;
    }
  }

  // ---- Texts of JSON values ----

  /** The values that Python takes for false. */
  ghost predicate IsFalsy(value: Json) {
    || value == Null || value == Bool(false) || value == Int(0) || value == Float(0.0)
    || value == Str("") || value == List([]) || value == Obj(map[])
  }

  /** `str(value or default)`: the default for what is false, a text itself, the rendering of anything else. */
  lemma TextOrCases(lib: Library, value: Json, default: string)
    ensures IsFalsy(value) ==> TextOr(lib, value, default) == default
    ensures value.Str? && value.text != "" ==> TextOr(lib, value, default) == value.text
    ensures !value.Str? && !IsFalsy(value) ==> TextOr(lib, value, default) == lib.show(value)
  {
  }
}
