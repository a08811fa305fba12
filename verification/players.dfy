/** Player-name parsing: the text area is split on `"\n"` and every line
    that trims to the empty string is dropped. Kept lines are NOT trimmed. */
module Players {
  import opened JsText

  /** A line that holds at least one visible character. */
  predicate IsName(line: string) {
    !AllWhiteSpace(line)
  }

  /** `IsName` is the filter's test, `name.trim() !== ""`. */
  lemma IsNameIffTrimNonEmpty(line: string)
    ensures IsName(line) <==> Trim(line) != ""
  {
    TrimEmptyIffAllWhiteSpace(line);
  }

  /** `lines.filter(name => name.trim() !== "")`. */
  function KeepNames(lines: seq<string>): (r: seq<string>)
    ensures |r| <= |lines|
    ensures forall i :: 0 <= i < |r| ==> IsName(r[i])
    ensures (forall i :: 0 <= i < |lines| ==> IsName(lines[i])) ==> r == lines
  {
    if |lines| == 0 then []
    else
      var rest := KeepNames(lines[1..]);
      assert lines == [lines[0]] + lines[1..];
      if IsName(lines[0]) then [lines[0]] + rest else rest
  }

  /** The filter never adds or repeats a line. */
  lemma {:induction false} KeepNamesSubMultiset(lines: seq<string>)
    ensures multiset(KeepNames(lines)) <= multiset(lines)
    decreases |lines|
  {
    if |lines| > 0 {
      KeepNamesSubMultiset(lines[1..]);
      assert lines == [lines[0]] + lines[1..];
    }
  }

  /** The names typed into the text area, in their original order. */
  function ParsePlayers(text: string): (r: seq<string>)
    ensures forall i :: 0 <= i < |r| ==> IsName(r[i])
    ensures |r| <= multiset(text)['\n'] + 1
  {
    SplitCount(text, '\n');
    KeepNames(Split(text, '\n'))
  }

  /** The filter works line by line: it distributes over concatenation. */
  lemma {:induction false} KeepNamesConcat(a: seq<string>, b: seq<string>)
    ensures KeepNames(a + b) == KeepNames(a) + KeepNames(b)
    decreases |a|
  {
    if |a| > 0 {
      KeepNamesConcat(a[1..], b);
      assert (a + b)[0] == a[0];
      assert (a + b)[1..] == a[1..] + b;
      if IsName(a[0]) {
        assert KeepNames(a) == [a[0]] + KeepNames(a[1..]);
        assert KeepNames(a + b) == [a[0]] + KeepNames(a[1..] + b);
      } else {
        assert KeepNames(a) == KeepNames(a[1..]);
        assert KeepNames(a + b) == KeepNames(a[1..] + b);
      }
    } else {
      assert a + b == b;
    }
  }

  /** A single line is kept exactly when it is a name. */
  lemma KeepNamesSingle(line: string)
    ensures KeepNames([line]) == if IsName(line) then [line] else []
  {
    assert [line][1..] == [];
  }

  /** Nothing is kept exactly when every line is blank. */
  lemma {:induction false} KeepNamesEmpty(lines: seq<string>)
    ensures KeepNames(lines) == [] <==> forall i :: 0 <= i < |lines| ==> !IsName(lines[i])
    decreases |lines|
  {
    if |lines| > 0 {
      KeepNamesEmpty(lines[1..]);
      assert forall i :: 1 <= i < |lines| ==> lines[i] == lines[1..][i - 1];
    }
  }

  /** For text made of `"\n"`-free lines, the players are the non-blank
      lines, untrimmed and in order. */
  lemma ParsePlayersOfLines(lines: seq<string>)
    requires |lines| > 0
    requires forall i :: 0 <= i < |lines| ==> '\n' !in lines[i]
    ensures ParsePlayers(Join(lines, '\n')) == KeepNames(lines)
  {
    SplitJoin(lines, '\n');
  }

  /** A line survives with its surrounding white space (for example a
      trailing `"\r"`) as long as it has one visible character. */
  lemma ParsePlayersKeepsLineAsIs(before: seq<string>, line: string, after: seq<string>)
    requires forall i :: 0 <= i < |before + [line] + after| ==> '\n' !in (before + [line] + after)[i]
    requires IsName(line)
    ensures ParsePlayers(Join(before + [line] + after, '\n'))
         == KeepNames(before) + [line] + KeepNames(after)
  {
    ParsePlayersOfLines(before + [line] + after);
    KeepNamesConcat(before + [line], after);
    KeepNamesConcat(before, [line]);
    KeepNamesSingle(line);
  }

  /** There are no players exactly when the text is white space only. */
  lemma NoPlayersIffBlankText(text: string)
    ensures ParsePlayers(text) == [] <==> AllWhiteSpace(text)
  {
    var lines := Split(text, '\n');
    SplitAllWhiteSpace(text, '\n');
    KeepNamesEmpty(lines);
  }
}
