/** The `attached_policies.txt` format: the exporter writes each policy ARN
    followed by a newline; the importer reads the file line by line and
    strips each line. */
module PolicyText {
  import opened Wrappers

  /** The ASCII characters Python's `str.strip()` removes: space, tab,
      newline, vertical tab, form feed, carriage return and the four
      information separators 0x1C to 0x1F. */
  predicate IsSpace(c: char)
  {
    var n := c as int;
    n == 32 || 9 <= n <= 13 || 28 <= n <= 31
  }

  /** No whitespace at either end. */
  predicate Trimmed(s: string)
  {
    s == [] || (!IsSpace(s[0]) && !IsSpace(s[|s| - 1]))
  }

  /** An ARN the format carries unchanged: one line, nothing to strip. */
  predicate Clean(arn: string)
  {
    '\n' !in arn && Trimmed(arn)
  }

  // ---------------------------------------------------------------------------
  // Writing

  /** The file the exporter writes: `arn + "\n"` for each ARN, in order. */
  function SerializeArns(arns: seq<string>): (r: string)
    ensures |r| >= |arns|
    ensures r == [] <==> arns == []
    ensures r != [] ==> r[|r| - 1] == '\n'
  {
    if arns == [] then "" else arns[0] + "\n" + SerializeArns(arns[1..])
  }

  /** Writing one more ARN appends exactly that ARN and one newline. */
  lemma {:induction false} SerializeSnoc(arns: seq<string>, arn: string)
    ensures SerializeArns(arns + [arn]) == SerializeArns(arns) + arn + "\n"
  {
    if arns == [] {
      assert arns + [arn] == [arn];
      assert [arn][1..] == [];
    } else {
      assert (arns + [arn])[0] == arns[0];
      assert (arns + [arn])[1..] == arns[1..] + [arn];
      SerializeSnoc(arns[1..], arn);
    }
  }

  // ---------------------------------------------------------------------------
  // Reading

  /** Index of the first newline of `s`, if any. */
  function FirstNewline(s: string): (r: Option<nat>)
    ensures r.Some? ==> r.value < |s|
  {
    if s == [] then None
    else if s[0] == '\n' then Some(0)
    else
      match FirstNewline(s[1..])
      case None => None
      case Some(i) => Some(i + 1)
  }

  /** FirstNewline finds the first newline, and finds none only when there is none. */
  lemma {:induction false} FirstNewlineSpec(s: string)
    ensures var r := FirstNewline(s);
      && (r.Some? ==> r.value < |s| && s[r.value] == '\n' && forall k :: 0 <= k < r.value ==> s[k] != '\n')
      && (r.None? ==> forall k :: 0 <= k < |s| ==> s[k] != '\n')
  {
    if s != [] && s[0] != '\n' {
      FirstNewlineSpec(s[1..]);
      assert forall k :: 0 < k < |s| ==> s[k] == s[1..][k - 1];
    }
  }

  function Join(lines: seq<string>): string
  {
    if lines == [] then "" else lines[0] + Join(lines[1..])
  }

  /** The lines a Python text file iterates over: each ends with its "\n",
      except possibly the last; an empty file has no lines. */
  function SplitLines(text: string): seq<string>
    decreases |text|
  {
    if text == [] then []
    else
      match FirstNewline(text)
      case None => [text]
      case Some(i) => [text[..i + 1]] + SplitLines(text[i + 1..])
  }

  /** A line of a text file: non-empty, no newline before its last
      character, and ending with a newline unless it is the last line. */
  predicate IsLine(line: string, last: bool)
  {
    && line != []
    && (forall k :: 0 <= k < |line| - 1 ==> line[k] != '\n')
    && (!last ==> line[|line| - 1] == '\n')
  }

  /** Splitting loses nothing: the lines joined give back the text, and each
      is a well-formed line. */
  lemma {:induction false} SplitLinesShape(text: string)
    ensures Join(SplitLines(text)) == text
    ensures var lines := SplitLines(text);
      forall i :: 0 <= i < |lines| ==> IsLine(lines[i], i == |lines| - 1)
    decreases |text|
  {
    if text != [] {
      FirstNewlineSpec(text);
      match FirstNewline(text)
      case None =>
        assert Join([text]) == text + Join([]);
      case Some(i) =>
        var line := text[..i + 1];
        SplitLinesShape(text[i + 1..]);
        var rest := SplitLines(text[i + 1..]);
        var lines := [line] + rest;
        assert SplitLines(text) == lines;
        assert lines[1..] == rest;
        assert line + text[i + 1..] == text;
        assert IsLine(line, rest == []);
        assert forall j :: 0 < j < |lines| ==> lines[j] == rest[j - 1];
    }
  }

  /** `s` without its leading whitespace. */
  function TrimLeft(s: string): (r: string)
    ensures |r| <= |s| && r == s[|s| - |r|..]
    ensures forall k :: 0 <= k < |s| - |r| ==> IsSpace(s[k])
    ensures r == [] || !IsSpace(r[0])
  {
    if s != [] && IsSpace(s[0]) then TrimLeft(s[1..]) else s
  }

  /** `s` without its trailing whitespace. */
  function TrimRight(s: string): (r: string)
    ensures |r| <= |s| && r == s[..|r|]
    ensures forall k :: |r| <= k < |s| ==> IsSpace(s[k])
    ensures r == [] || !IsSpace(r[|r| - 1])
  {
    if s != [] && IsSpace(s[|s| - 1]) then TrimRight(s[..|s| - 1]) else s
  }

  /** `line.strip()`. */
  function Strip(s: string): (r: string)
    ensures Trimmed(r)
    ensures |r| <= |s|
    ensures Trimmed(s) ==> r == s
    ensures exists i, j :: InnerSlice(s, r, i, j)
  {
    TrimBothEnds(s);
    TrimRight(TrimLeft(s))
  }

  /** `r` is `s[i..j]` and everything cut off on either side is whitespace. */
  predicate InnerSlice(s: string, r: string, i: int, j: int)
  {
    && 0 <= i <= j <= |s| && r == s[i..j]
    && (forall k :: 0 <= k < i ==> IsSpace(s[k]))
    && (forall k :: j <= k < |s| ==> IsSpace(s[k]))
  }

  /** Trimming both ends keeps a slice of `s` and drops only whitespace. */
  lemma TrimBothEnds(s: string)
    ensures exists i, j :: InnerSlice(s, TrimRight(TrimLeft(s)), i, j)
  {
    var left := TrimLeft(s);
    var i := |s| - |left|;
    assert left == s[i..];
    var right := TrimRight(left);
    var m := |right|;
    assert right == left[..m];
    SpacesAfter(s, i, left, m);
    SliceOfSuffix(s, i, m);
    assert InnerSlice(s, right, i, i + m);
  }

  /** Whitespace at the end of a suffix of `s` is whitespace at the end of `s`. */
  lemma SpacesAfter(s: string, i: nat, left: string, m: nat)
    requires i <= |s| && left == s[i..] && m <= |left|
    requires forall k :: m <= k < |left| ==> IsSpace(left[k])
    ensures forall k :: i + m <= k < |s| ==> IsSpace(s[k])
  {
    forall k | i + m <= k < |s|
      ensures IsSpace(s[k])
    {
      assert s[k] == left[k - i];
    }
  }

  lemma SliceOfSuffix(s: string, i: nat, m: nat)
    requires i + m <= |s|
    ensures s[i..][..m] == s[i..i + m]
  {
  }

  function StripAll(lines: seq<string>): (r: seq<string>)
    ensures |r| == |lines|
    ensures forall i :: 0 <= i < |lines| ==> r[i] == Strip(lines[i])
  {
    if lines == [] then [] else [Strip(lines[0])] + StripAll(lines[1..])
  }

  /** `[line.strip() for line in policies_file]`. */
  function ParseArns(text: string): (arns: seq<string>)
    ensures |arns| == |SplitLines(text)|
    ensures forall i :: 0 <= i < |arns| ==> arns[i] == Strip(SplitLines(text)[i])
    ensures forall i :: 0 <= i < |arns| ==> Trimmed(arns[i])
  {
    StripAll(SplitLines(text))
  }

  // ---------------------------------------------------------------------------
  // Properties of the format

  /** A line with its newline strips back to the ARN when the ARN needs no stripping. */
  lemma StripLine(arn: string)
    requires Trimmed(arn)
    ensures Strip(arn + "\n") == arn
  {
    var s := arn + "\n";
    assert IsSpace('\n');
    if arn == [] {
      assert TrimLeft(s) == TrimLeft(s[1..]);
      assert s[1..] == [];
    } else {
      assert s[0] == arn[0];
      assert TrimLeft(s) == s;
      assert s[..|s| - 1] == arn;
      assert TrimRight(s) == TrimRight(arn);
    }
  }

  /** A text whose first line is `arn` splits into that line and the rest. */
  lemma SplitFirst(arn: string, rest: string)
    requires '\n' !in arn
    ensures SplitLines(arn + "\n" + rest) == [arn + "\n"] + SplitLines(rest)
  {
    var text := arn + "\n" + rest;
    var r := FirstNewline(text);
    FirstNewlineSpec(text);
    assert text[|arn|] == '\n';
    forall k | 0 <= k < |arn|
      ensures text[k] != '\n'
    {
      assert text[k] == arn[k];
    }
    assert r == Some(|arn|);
    assert text[..|arn| + 1] == arn + "\n";
    assert text[|arn| + 1..] == rest;
  }

  /** Round trip: reading back the file written for clean ARNs gives the same
      list, in the same order. */
  lemma {:induction false} ParseSerialize(arns: seq<string>)
    requires forall i :: 0 <= i < |arns| ==> Clean(arns[i])
    ensures ParseArns(SerializeArns(arns)) == arns
  {
    if arns != [] {
      var tail := SerializeArns(arns[1..]);
      assert Clean(arns[0]);
      SplitFirst(arns[0], tail);
      StripLine(arns[0]);
      ParseSerialize(arns[1..]);
      var lines := SplitLines(SerializeArns(arns));
      assert lines == [arns[0] + "\n"] + SplitLines(tail);
      assert lines[1..] == SplitLines(tail);
    }
  }

  /** Writing one more ARN, with no newline in it, adds exactly one entry to
      what is read back: that line, stripped. This holds for any such ARN,
      including one with surrounding whitespace. */
  lemma ReadBackOneMore(arns: seq<string>, arn: string)
    requires '\n' !in arn
    ensures ParseArns(SerializeArns(arns + [arn])) == ParseArns(SerializeArns(arns)) + [Strip(arn + "\n")]
  {
    var before := SerializeArns(arns);
    var line := arn + "\n";
    SerializeSnoc(arns, arn);
    assert SerializeArns(arns + [arn]) == before + line;
    SplitAppend(before, line);
    OneLine(arn);
    StripAllAppend(SplitLines(before), [line]);
    assert StripAll([line]) == [Strip(line)];
  }

  /** A line without an inner newline splits as itself. */
  lemma OneLine(arn: string)
    requires '\n' !in arn
    ensures SplitLines(arn + "\n") == [arn + "\n"]
  {
    SplitFirst(arn, "");
    assert arn + "\n" + "" == arn + "\n";
    assert SplitLines("") == [];
  }

  /** A text cut after a newline splits into the lines of each part. */
  lemma {:induction false} SplitAppend(a: string, b: string)
    requires a == [] || a[|a| - 1] == '\n'
    ensures SplitLines(a + b) == SplitLines(a) + SplitLines(b)
    decreases |a|
  {
    if a == [] {
      assert a + b == b;
    } else {
      var i := LastIsNewline(a);
      SplitAfterLine(a, b, i);
      var a' := a[i + 1..];
      SplitAppend(a', b);
      Assoc([a[..i + 1]], SplitLines(a'), SplitLines(b));
    }
  }

  lemma Assoc<T>(x: seq<T>, y: seq<T>, z: seq<T>)
    ensures x + (y + z) == (x + y) + z
  {
  }

  /** A text ending with a newline has a first newline, and what follows it
      still ends with a newline or is empty. */
  lemma LastIsNewline(a: string) returns (i: nat)
    requires a != [] && a[|a| - 1] == '\n'
    ensures FirstNewline(a) == Some(i)
    ensures var a' := a[i + 1..]; a' == [] || a'[|a'| - 1] == '\n'
  {
    FirstNewlineSpec(a);
    i := FirstNewline(a).value;
  }

  /** Appending to a text leaves its first line alone. */
  lemma SplitAfterLine(a: string, b: string, i: nat)
    requires FirstNewline(a) == Some(i)
    ensures i < |a|
    ensures SplitLines(a) == [a[..i + 1]] + SplitLines(a[i + 1..])
    ensures SplitLines(a + b) == [a[..i + 1]] + SplitLines(a[i + 1..] + b)
  {
    FirstNewlineAppend(a, b);
    SplitUnfold(a, i);
    SplitUnfold(a + b, i);
    SliceAppend(a, b, i + 1);
  }

  lemma SliceAppend(a: string, b: string, n: nat)
    requires n <= |a|
    ensures (a + b)[..n] == a[..n]
    ensures (a + b)[n..] == a[n..] + b
  {
  }

  lemma SplitUnfold(text: string, i: nat)
    requires FirstNewline(text) == Some(i)
    ensures i < |text|
    ensures SplitLines(text) == [text[..i + 1]] + SplitLines(text[i + 1..])
  {
    assert text != [];
    assert i < |text|;
    var line, rest := text[..i + 1], text[i + 1..];
    assert SplitLines(text) == [line] + SplitLines(rest);
  }

  lemma FirstNewlineAppend(a: string, b: string)
    requires FirstNewline(a).Some?
    ensures FirstNewline(a + b) == FirstNewline(a)
  {
    var i := FirstNewline(a).value;
    var ab := a + b;
    FirstNewlineSpec(a);
    FirstNewlineSpec(ab);
    assert ab[i] == '\n';
    forall k | 0 <= k < i
      ensures ab[k] != '\n'
    {
      assert ab[k] == a[k];
    }
  }

  lemma StripAllAppend(a: seq<string>, b: seq<string>)
    ensures StripAll(a + b) == StripAll(a) + StripAll(b)
  {
  }

  /** A newline inserted after a complete line adds the line "\n" there. */
  lemma SplitBlank(before: string, after: string)
    requires before == [] || before[|before| - 1] == '\n'
    ensures SplitLines(before + "\n" + after) == SplitLines(before) + (["\n"] + SplitLines(after))
  {
    assert before + "\n" + after == before + ("\n" + after);
    SplitAppend(before, "\n" + after);
    SplitFirst("", after);
    assert "" + "\n" + after == "\n" + after;
    assert "" + "\n" == "\n";
  }

  lemma StripAllCons(line: string, lines: seq<string>)
    ensures StripAll([line] + lines) == [Strip(line)] + StripAll(lines)
  {
    assert ([line] + lines)[1..] == lines;
  }

  /** A blank line is read as an empty ARN rather than skipped. */
  lemma BlankLineKept(before: string, after: string)
    requires before == [] || before[|before| - 1] == '\n'
    ensures ParseArns(before + "\n" + after) == ParseArns(before) + [""] + ParseArns(after)
  {
    var l1 := SplitLines(before);
    var l3 := SplitLines(after);
    SplitBlank(before, after);
    StripAllAppend(l1, ["\n"] + l3);
    StripAllCons("\n", l3);
    StripLine("");
    assert "" + "\n" == "\n";
    Assoc(StripAll(l1), [""], StripAll(l3));
  }
}
