/** Lines with their ends, joining them again, and which lists of lines survive a round trip. */
module TextLines {

  /** Where the first line ends: behind its line feed, or at the end of the text. */
  function LineEnd(text: string): (k: nat)
    ensures k <= |text| && (|text| > 0 ==> k > 0)
    ensures forall i :: 0 <= i < k - 1 ==> text[i] != '\n'
    ensures k < |text| ==> text[k - 1] == '\n'
  {
    if |text| == 0 then 0 else if text[0] == '\n' then 1 else 1 + LineEnd(text[1..])
  }

  function LinesOf(text: string): seq<string> {
    if |text| == 0 then [] else [text[..LineEnd(text)]] + LinesOf(text[LineEnd(text)..])
  }

  function Join(lines: seq<string>): string {
    if |lines| == 0 then "" else lines[0] + Join(lines[1..])
  }

  lemma {:induction false} JoinLines(text: string)
    ensures Join(LinesOf(text)) == text
  {
    if |text| > 0 {
      JoinLines(text[LineEnd(text)..]);
      assert LinesOf(text)[1..] == LinesOf(text[LineEnd(text)..]);
    }
  }

  /** Not empty, and no line feed but at the end. */
  predicate IsLine(line: string) {
    |line| > 0 && forall i :: 0 <= i < |line| - 1 ==> line[i] != '\n'
  }

  predicate Ended(line: string) { |line| > 0 && line[|line| - 1] == '\n' }

  /** Lines of which all but the last are ended. */
  predicate Canonical(lines: seq<string>) {
    && (forall i :: 0 <= i < |lines| ==> IsLine(lines[i]))
    && (forall i :: 0 <= i < |lines| - 1 ==> Ended(lines[i]))
  }

  lemma {:induction false} LinesCanonical(text: string)
    ensures Canonical(LinesOf(text))
    ensures |text| > 0 ==> |LinesOf(text)| > 0 && (Ended(LinesOf(text)[|LinesOf(text)| - 1]) <==> text[|text| - 1] == '\n')
  {
    if |text| > 0 {
      var k := LineEnd(text);
      var rest := LinesOf(text[k..]);
      LinesCanonical(text[k..]);
      assert LinesOf(text) == [text[..k]] + rest;
      assert text[..k][k - 1] == text[k - 1];
      if k == |text| {
        assert rest == [];
      }
    }
  }

  /** Where a line and more behind it ends. */
  lemma {:induction false} EndOfLine(line: string, rest: string)
    requires IsLine(line) && (Ended(line) || rest == "")
    ensures LineEnd(line + rest) == |line|
  {
    if |line| > 1 {
      assert line[0] != '\n';
      assert (line + rest)[1..] == line[1..] + rest;
      EndOfLine(line[1..], rest);
    } else if line[0] != '\n' {
      assert (line + rest)[1..] == "";
    }
  }

  lemma {:induction false} SplitJoined(lines: seq<string>)
    requires Canonical(lines)
    ensures LinesOf(Join(lines)) == lines
  {
    if |lines| > 0 {
      var rest := lines[1..];
      assert Canonical(rest) by {
        assert forall i :: 0 <= i < |rest| ==> rest[i] == lines[i + 1];
      }
      SplitJoined(rest);
      assert |lines| == 1 ==> Join(rest) == "";
      EndOfLine(lines[0], Join(rest));
      assert Join(lines)[..|lines[0]|] == lines[0] && Join(lines)[|lines[0]|..] == Join(rest);
    }
  }

  /** A list of lines is what splitting its join gives exactly when it is canonical. */
  lemma RoundTripExactly(lines: seq<string>)
    ensures LinesOf(Join(lines)) == lines <==> Canonical(lines)
  {
    LinesCanonical(Join(lines));
    if Canonical(lines) {
      SplitJoined(lines);
    }
  }
}
