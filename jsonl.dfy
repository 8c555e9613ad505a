/**
 * The line decoder: newline-delimited JSON text to the ordered list of
 * records it holds, skipping blank lines and lines that fail to decode, and
 * the loaders' rule that a text yielding no record at all is an error.
 * `JSON.parse` is not modelled: it is the `decode` parameter, `None` for a
 * line it rejects.
 */
module Jsonl {
  import opened Wrappers
  import opened Text
  import opened Events

  /** The lines the decoder visits: the whole text trimmed, then split on '\n'. */
  function Lines(content: string): (lines: seq<string>)
    ensures |lines| >= 1
  {
    Split(Trim(content), '\n')
  }

  /** What one line contributes: nothing when it is blank after trimming or
      does not decode, otherwise the one record decoded from the trimmed line. */
  function LineRecords(line: string, decode: string -> Option<Record>): seq<Record>
  {
    var t := Trim(line);
    if t == "" then []
    else match decode(t)
      case Some(r) => [r]
      case None => []
  }

  /** The records of a list of lines, in line order. */
  function DecodeLines(lines: seq<string>, decode: string -> Option<Record>): seq<Record>
  {
    if |lines| == 0 then []
    else DecodeLines(lines[..|lines| - 1], decode) + LineRecords(lines[|lines| - 1], decode)
  }

  /** A line that contributes a record. */
  predicate Decodes(line: string, decode: string -> Option<Record>)
  {
    Trim(line) != "" && decode(Trim(line)).Some?
  }

  /** The line numbers (counting from 1) that `parseJsonl` warns about: the
      lines that are non-blank after trimming but fail to decode, in order. */
  function FailedLines(lines: seq<string>, decode: string -> Option<Record>): seq<nat>
  {
    if |lines| == 0 then []
    else
      var t := Trim(lines[|lines| - 1]);
      FailedLines(lines[..|lines| - 1], decode)
        + (if t != "" && decode(t).None? then [|lines|] else [])
  }

  /** `parseJsonl`: visits the lines in order, collects what decodes and warns,
      with the line number, about each non-blank line that does not. */
  method ParseJsonl(content: string, decode: string -> Option<Record>)
    returns (records: seq<Record>, warned: seq<nat>)
    ensures records == DecodeLines(Lines(content), decode)
    ensures warned == FailedLines(Lines(content), decode)
    ensures |records| + |warned| <= |Lines(content)|
  {
    var lines := Split(Trim(content), '\n');
    records, warned := [], [];
    for i := 0 to |lines|
      invariant records == DecodeLines(lines[..i], decode)
      invariant warned == FailedLines(lines[..i], decode)
      invariant |records| + |warned| <= i
    {
      var line := Trim(lines[i]);
      ghost var before := records;
      if line != "" {
        var parsed := decode(line);
        if parsed.Some? {
          records := records + [parsed.value];
        } else {
          warned := warned + [i + 1];
        }
      }
      assert records == before + LineRecords(lines[i], decode);
      assert lines[..i + 1][..i] == lines[..i];
    }
    assert lines[..|lines|] == lines;
  }

  /** A line number is warned about exactly when that line is non-blank after
      trimming and fails to decode, and the warnings come in line order. So
      every line is exactly one of blank, decoded (`Decodes`) or warned. */
  lemma {:induction false} FailedLinesContents(lines: seq<string>, decode: string -> Option<Record>)
    ensures forall n :: n in FailedLines(lines, decode) <==>
      1 <= n <= |lines| && Trim(lines[n - 1]) != "" && decode(Trim(lines[n - 1])).None?
    ensures forall a, b :: 0 <= a < b < |FailedLines(lines, decode)| ==>
      FailedLines(lines, decode)[a] < FailedLines(lines, decode)[b]
    ensures forall i :: 0 <= i < |lines| ==>
      (i + 1 in FailedLines(lines, decode) <==> Trim(lines[i]) != "" && !Decodes(lines[i], decode))
  {
    if |lines| > 0 {
      var init := lines[..|lines| - 1];
      FailedLinesContents(init, decode);
      var before := FailedLines(init, decode);
      forall a | 0 <= a < |before| ensures before[a] <= |init| {
        assert before[a] in before;
      }
      forall i | 0 <= i < |init| ensures init[i] == lines[i] { }
    }
  }

  /** Decoding distributes over concatenation: the records of the earlier
      lines come first, so the output keeps the input's line order. */
  lemma {:induction false} DecodeLinesAppend(a: seq<string>, b: seq<string>, decode: string -> Option<Record>)
    ensures DecodeLines(a + b, decode) == DecodeLines(a, decode) + DecodeLines(b, decode)
  {
    if |b| > 0 {
      var b' := b[..|b| - 1];
      assert (a + b)[..|a + b| - 1] == a + b';
      DecodeLinesAppend(a, b', decode);
    } else {
      assert a + b == a;
    }
  }

  /** A record is in the output exactly when some line decodes to it, and
      there are never more records than lines. */
  lemma {:induction false} DecodeLinesContents(lines: seq<string>, decode: string -> Option<Record>)
    ensures |DecodeLines(lines, decode)| <= |lines|
    ensures forall r :: r in DecodeLines(lines, decode) <==>
      exists i :: 0 <= i < |lines| && Decodes(lines[i], decode) && decode(Trim(lines[i])) == Some(r)
  {
    if |lines| > 0 {
      var init := lines[..|lines| - 1];
      DecodeLinesContents(init, decode);
      forall r ensures r in DecodeLines(lines, decode) <==>
        exists i :: 0 <= i < |lines| && Decodes(lines[i], decode) && decode(Trim(lines[i])) == Some(r)
      {
        if r in DecodeLines(lines, decode) && r !in DecodeLines(init, decode) {
          assert Decodes(lines[|lines| - 1], decode) && decode(Trim(lines[|lines| - 1])) == Some(r);
        }
        if exists i :: 0 <= i < |lines| && Decodes(lines[i], decode) && decode(Trim(lines[i])) == Some(r) {
          var i :| 0 <= i < |lines| && Decodes(lines[i], decode) && decode(Trim(lines[i])) == Some(r);
          if i < |lines| - 1 {
            assert init[i] == lines[i];
          }
        }
      }
    }
  }

  /** No record comes out exactly when every line is blank after trimming or
      fails to decode. */
  lemma {:induction false} DecodeLinesEmpty(lines: seq<string>, decode: string -> Option<Record>)
    ensures DecodeLines(lines, decode) == [] <==> forall i :: 0 <= i < |lines| ==> !Decodes(lines[i], decode)
  {
    DecodeLinesContents(lines, decode);
    if DecodeLines(lines, decode) != [] {
      var r := DecodeLines(lines, decode)[0];
      assert r in DecodeLines(lines, decode);
    }
  }

  datatype LoadError = NoValidObjects

  /** The loaders' use of `parseJsonl` (on file upload and on drop): a text
      from which no record decodes is the error "No valid JSON objects found
      in the file" rather than an empty trace. */
  method LoadRecords(content: string, decode: string -> Option<Record>)
    returns (result: Result<seq<Record>, LoadError>)
    ensures result.Failure? <==> forall i :: 0 <= i < |Lines(content)| ==> !Decodes(Lines(content)[i], decode)
    ensures result.Success? ==> result.value == DecodeLines(Lines(content), decode) && result.value != []
  {
    var records, _ := ParseJsonl(content, decode);
    DecodeLinesEmpty(Lines(content), decode);
    if |records| == 0 {
      result := Failure(NoValidObjects);
    } else {
      result := Success(records);
    }
  }
}
