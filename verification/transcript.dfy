/** `read_text` of corpus/commonvoice.py: the transcript and the audio id
    taken from the first line of a transcript file. The file is given as its
    decoded text; opening and reading it is not modelled. */
module Transcript {
  import opened Wrappers
  import Fields

  /** What `read_text` returns: (transcript, audio id), in that order. */
  type Row = (string, string)

  datatype ReadError =
    | NoLines                  // empty file: the loop never runs and `None` comes back
    | TooFewFields(fields: nat) // `split[2]` raises IndexError

  /** Python's text mode reads with universal newlines: "\n", "\r" and
      "\r\n" all end a line. */
  predicate IsLineBreak(c: char)
  {
    c == '\n' || c == '\r'
  }

  predicate LineBreakFree(s: string)
  {
    forall i :: 0 <= i < |s| ==> !IsLineBreak(s[i])
  }

  /** The first line that iterating over the open file yields: everything up
      to the first line break, with that break translated to "\n". */
  function FirstLine(content: string): (line: string)
    ensures |line| <= |content|
    ensures LineBreakFree(content) ==> line == content
    ensures !LineBreakFree(content) ==>
      && line != []
      && line[|line| - 1] == '\n'
      && IsLineBreak(content[|line| - 1])
      && line[..|line| - 1] == content[..|line| - 1]
      && LineBreakFree(line[..|line| - 1])
  {
    if content == [] then []
    else if IsLineBreak(content[0]) then "\n"
    else [content[0]] + FirstLine(content[1..])
  }

  /** The body of the loop: split one line on tabs and take the third and
      second fields. */
  function ParseLine(line: string): (r: Result<Row, ReadError>)
    ensures r.Success? <==> Fields.Count(line, '\t') >= 2
    ensures r.Failure? ==> r.error == TooFewFields(Fields.Count(line, '\t') + 1)
  {
    var fields := Fields.Split(line, '\t');
    if |fields| < 3 then Failure(TooFewFields(|fields|))
    else Success((fields[2], fields[1]))
  }

  /** `read_text(file)`, on the file's contents. */
  function ReadText(content: string): (r: Result<Row, ReadError>)
    ensures r == Failure(NoLines) <==> content == []
    ensures r.Success? <==> content != [] && Fields.Count(FirstLine(content), '\t') >= 2
    ensures content != [] && r.Failure? ==> r.error == TooFewFields(Fields.Count(FirstLine(content), '\t') + 1)
  {
    if content == [] then Failure(NoLines)
    else ParseLine(FirstLine(content))
  }

  /** The first line ends at the first line break, and nothing after that
      break is part of it. */
  lemma {:induction false} FirstLineOf(body: string, tail: string)
    requires LineBreakFree(body)
    requires tail == [] || IsLineBreak(tail[0])
    ensures FirstLine(body + tail) == body + (if tail == [] then [] else "\n")
  {
    if body == [] {
      assert body + tail == tail;
    } else {
      FirstLineOf(body[1..], tail);
      assert (body + tail)[1..] == body[1..] + tail;
      assert [body[0]] + body[1..] == body;
    }
  }

  /** A line with tab-free leading, id and transcript fields yields
      (transcript, id), whatever follows a third tab. */
  lemma ParseLineFields(pre: string, id: string, field: string, rest: string)
    requires '\t' !in pre && '\t' !in id && '\t' !in field
    requires rest == [] || rest[0] == '\t'
    ensures ParseLine(pre + "\t" + id + "\t" + field + rest) == Success((field, id))
  {
    var line := pre + "\t" + id + "\t" + field + rest;
    assert line == pre + ['\t'] + (id + ['\t'] + (field + rest));
    Fields.SplitAfter(pre, '\t', id + ['\t'] + (field + rest));
    Fields.SplitAfter(id, '\t', field + rest);
    if rest == [] {
      assert field + rest == field;
      Fields.SplitWhole(field, '\t');
    } else {
      assert field + rest == field + ['\t'] + rest[1..];
      Fields.SplitAfter(field, '\t', rest[1..]);
    }
  }

  /** Reading a record line: the id is the second field and the transcript
      the third, which keeps the line's "\n" when it is the last field.
      Nothing after the first line break matters. */
  lemma ReadTextRecord(pre: string, id: string, field: string, rest: string, brk: char, later: string)
    requires '\t' !in pre && '\t' !in id && '\t' !in field
    requires rest == [] || rest[0] == '\t'
    requires LineBreakFree(pre + "\t" + id + "\t" + field + rest)
    requires IsLineBreak(brk)
    ensures ReadText(pre + "\t" + id + "\t" + field + rest + [brk] + later)
         == Success((if rest == [] then field + "\n" else field, id))
  {
    var body := pre + "\t" + id + "\t" + field + rest;
    var content := body + [brk] + later;
    assert FirstLine(content) == body + "\n" by {
      assert content == body + ([brk] + later);
      FirstLineOf(body, [brk] + later);
    }
    assert ParseLine(body + "\n") == Success((if rest == [] then field + "\n" else field, id)) by {
      if rest == [] {
        assert body + "\n" == pre + "\t" + id + "\t" + (field + "\n") + [];
        assert '\t' !in field + "\n";
        ParseLineFields(pre, id, field + "\n", []);
      } else {
        assert body + "\n" == pre + "\t" + id + "\t" + field + (rest + "\n");
        ParseLineFields(pre, id, field, rest + "\n");
      }
    }
  }

  /** A file that is a single record line with no line break at all: the
      transcript is the third field as it stands, with no "\n" added. */
  lemma ReadTextOnlyRecord(pre: string, id: string, field: string, rest: string)
    requires '\t' !in pre && '\t' !in id && '\t' !in field
    requires rest == [] || rest[0] == '\t'
    requires LineBreakFree(pre + "\t" + id + "\t" + field + rest)
    ensures ReadText(pre + "\t" + id + "\t" + field + rest) == Success((field, id))
  {
    var body := pre + "\t" + id + "\t" + field + rest;
    FirstLineOf(body, []);
    assert body + [] == body;
    ParseLineFields(pre, id, field, rest);
  }

  /** Only the first line is read: two files that agree up to and including
      their first line break read the same. */
  lemma ReadTextIgnoresLaterLines(body: string, brk: char, later: string, later': string)
    requires LineBreakFree(body)
    requires IsLineBreak(brk)
    ensures ReadText(body + [brk] + later) == ReadText(body + [brk] + later')
  {
    assert body + [brk] + later == body + ([brk] + later);
    assert body + [brk] + later' == body + ([brk] + later');
    FirstLineOf(body, [brk] + later);
    FirstLineOf(body, [brk] + later');
  }

  /** A first line with fewer than two tabs is an error that reports how
      many fields the line had, whatever the later lines hold. */
  lemma ReadTextShortLine(body: string, brk: char, later: string)
    requires LineBreakFree(body)
    requires IsLineBreak(brk)
    requires Fields.Count(body, '\t') < 2
    ensures ReadText(body + [brk] + later) == Failure(TooFewFields(Fields.Count(body, '\t') + 1))
  {
    var content := body + [brk] + later;
    assert FirstLine(content) == body + "\n" by {
      assert content == body + ([brk] + later);
      FirstLineOf(body, [brk] + later);
    }
    ParseShortLine(body);
  }

  /** A short line keeps its field count when its "\n" is added. */
  lemma ParseShortLine(body: string)
    requires Fields.Count(body, '\t') < 2
    ensures ParseLine(body + "\n") == Failure(TooFewFields(Fields.Count(body, '\t') + 1))
  {
    CountAppend(body, "\n", '\t');
    assert Fields.Count("\n", '\t') == 0 by {
      assert "\n"[1..] == [];
    }
  }

  /** A non-empty file that is a single short line with no line break
      fails in the same way. */
  lemma ReadTextOnlyShortLine(body: string)
    requires body != []
    requires LineBreakFree(body)
    requires Fields.Count(body, '\t') < 2
    ensures ReadText(body) == Failure(TooFewFields(Fields.Count(body, '\t') + 1))
  {
    FirstLineOf(body, []);
    assert body + [] == body;
  }

  lemma {:induction false} CountAppend(a: string, b: string, c: char)
    ensures Fields.Count(a + b, c) == Fields.Count(a, c) + Fields.Count(b, c)
  {
    if a == [] {
      assert a + b == b;
    } else {
      CountAppend(a[1..], b, c);
      assert (a + b)[1..] == a[1..] + b;
    }
  }
}
