/** The text framing of the array stored in a tarball member: save writes one
    '\n'-terminated line per element, load reads the lines back and removes
    every '\n' from each (lyncs_io/tar.py, the write loop of save and the list
    comprehension of load). */
module TarLines {
  import opened Text

  /** No element holds a '\n'. */
  predicate NoNewlines(arr: seq<string>)
  {
    forall k :: 0 <= k < |arr| ==> '\n' !in arr[k]
  }

  /** The text save writes for arr: every element followed by '\n'. */
  function Encode(arr: seq<string>): (text: string)
    ensures |text| >= |arr|
  {
    if arr == [] then [] else arr[0] + "\n" + Encode(arr[1..])
  }

  /** Writing one more element appends that element and its terminator. */
  lemma {:induction false} EncodeAppend(arr: seq<string>, x: string)
    ensures Encode(arr + [x]) == Encode(arr) + x + "\n"
  {
    if arr == [] {
      assert [] + [x] == [x];
      assert [x][1..] == [];
    } else {
      assert (arr + [x])[1..] == arr[1..] + [x];
      EncodeAppend(arr[1..], x);
    }
  }

  /** Writing an element before others puts its line first. */
  lemma EncodeCons(x: string, arr: seq<string>)
    ensures Encode([x] + arr) == x + "\n" + Encode(arr)
  {
    assert ([x] + arr)[1..] == arr;
  }

  /** The write loop of save: each element, then '\n', onto the data file. */
  method WriteData(arr: seq<string>) returns (text: string)
    ensures text == Encode(arr)
  {
    text := "";
    var i := 0;
    while i < |arr|
      invariant 0 <= i <= |arr|
      invariant text == Encode(arr[..i])
    {
      EncodeAppend(arr[..i], arr[i]);
      assert arr[..i + 1] == arr[..i] + [arr[i]];
      text := text + arr[i] + "\n";
      i := i + 1;
    }
    assert arr[..|arr|] == arr;
  }

  /** The encoding has one '\n' per element when no element holds one. */
  lemma {:induction false} EncodeNewlineCount(arr: seq<string>)
    requires NoNewlines(arr)
    ensures Count(Encode(arr), '\n') == |arr|
  {
    if arr != [] {
      assert NoNewlines(arr[1..]) by {
        forall k | 0 <= k < |arr| - 1 ensures '\n' !in arr[1..][k] {
          assert arr[1..][k] == arr[k + 1];
        }
      }
      EncodeNewlineCount(arr[1..]);
      CountAppend(arr[0], "\n" + Encode(arr[1..]), '\n');
      CountAppend("\n", Encode(arr[1..]), '\n');
      assert arr[0] + "\n" + Encode(arr[1..]) == arr[0] + ("\n" + Encode(arr[1..]));
    }
  }

  /** A non-empty encoding ends with '\n'. */
  lemma {:induction false} EncodeTerminated(arr: seq<string>)
    ensures Encode(arr) == [] <==> arr == []
    ensures arr != [] ==> Encode(arr)[|Encode(arr)| - 1] == '\n'
  {
    if arr != [] {
      EncodeTerminated(arr[1..]);
    }
  }

  /** A line as readlines yields it: not empty, and a '\n' at most at its end. */
  predicate IsLine(line: string)
  {
    line != [] && '\n' !in line[..|line| - 1]
  }

  /** The line ends with its terminator. */
  predicate Terminated(line: string)
  {
    line != [] && line[|line| - 1] == '\n'
  }

  /** f.readlines() on the member's bytes: the text cut just after every '\n';
      a final piece without '\n' is a line as well; no text gives no lines. */
  function ReadLines(data: string): (lines: seq<string>)
    ensures Concat(lines) == data
    ensures forall k :: 0 <= k < |lines| ==> IsLine(lines[k])
    decreases |data|
  {
    if data == [] then []
    else
      var i := Find(data, '\n');
      if i < 0 then
        assert Concat([data]) == data + Concat([]);
        [data]
      else
        var tail := ReadLines(data[i + 1..]);
        assert data == data[..i + 1] + data[i + 1..];
        assert data[..i + 1][..i] == data[..i];
        assert ([data[..i + 1]] + tail)[1..] == tail;
        [data[..i + 1]] + tail
  }

  /** Every line but the last is terminated. */
  lemma {:induction false} ReadLinesTerminated(data: string, k: int)
    requires 0 <= k < |ReadLines(data)| - 1
    ensures Terminated(ReadLines(data)[k])
    decreases |data|
  {
    var i := Find(data, '\n');
    var rest := data[i + 1..];
    assert ReadLines(data) == [data[..i + 1]] + ReadLines(rest);
    if k > 0 {
      ReadLinesTerminated(rest, k - 1);
    }
  }

  /** The last line is terminated exactly when the text is. */
  lemma {:induction false} ReadLinesLastTerminated(data: string)
    requires data != []
    ensures ReadLines(data) != []
    ensures Terminated(ReadLines(data)[|ReadLines(data)| - 1]) <==> data[|data| - 1] == '\n'
    decreases |data|
  {
    var i := Find(data, '\n');
    if i >= 0 {
      var line, rest := data[..i + 1], data[i + 1..];
      assert ReadLines(data) == [line] + ReadLines(rest);
      if rest == [] {
        assert data == line;
      } else {
        ReadLinesLastTerminated(rest);
        assert data[|data| - 1] == rest[|rest| - 1];
      }
    }
  }

  /** line.replace('\n', ''): line with every '\n' taken out, the rest kept in order. */
  function RemoveNewlines(line: string): (r: string)
    ensures '\n' !in r
    ensures |r| == |line| - Count(line, '\n')
    ensures '\n' !in line ==> r == line
  {
    if line == [] then []
    else (if line[0] == '\n' then [] else [line[0]]) + RemoveNewlines(line[1..])
  }

  /** Removing newlines from two pieces one after the other. */
  lemma {:induction false} RemoveNewlinesAppend(s: string, t: string)
    ensures RemoveNewlines(s + t) == RemoveNewlines(s) + RemoveNewlines(t)
  {
    if s == [] {
      assert s + t == t;
    } else {
      assert (s + t)[1..] == s[1..] + t;
      RemoveNewlinesAppend(s[1..], t);
    }
  }

  /** A line as readlines yields it loses only its terminator. */
  lemma LineLosesTerminator(line: string)
    requires IsLine(line)
    ensures RemoveNewlines(line) ==
      if line[|line| - 1] == '\n' then line[..|line| - 1] else line
  {
    var body, last := line[..|line| - 1], line[|line| - 1];
    assert line == body + [last];
    assert RemoveNewlines(line) == RemoveNewlines(body) + RemoveNewlines([last]) by {
      RemoveNewlinesAppend(body, [last]);
    }
    assert RemoveNewlines([last]) == if last == '\n' then [] else [last] by {
      assert [last][1..] == [];
    }
  }

  /** Each line with its newlines removed, in order. */
  function StripLines(lines: seq<string>): (arr: seq<string>)
    ensures |arr| == |lines|
    ensures NoNewlines(arr)
  {
    if lines == [] then [] else [RemoveNewlines(lines[0])] + StripLines(lines[1..])
  }

  /** The comprehension of load: one element per line read, newlines removed. */
  function Decode(data: string): (arr: seq<string>)
    ensures |arr| == |ReadLines(data)|
    ensures NoNewlines(arr)
  {
    StripLines(ReadLines(data))
  }

  /** The k-th element of StripLines is the k-th line stripped. */
  lemma {:induction false} StripLinesAt(lines: seq<string>, k: int)
    requires 0 <= k < |lines|
    ensures StripLines(lines)[k] == RemoveNewlines(lines[k])
  {
    if k > 0 {
      StripLinesAt(lines[1..], k - 1);
    }
  }

  /** Each element load returns is its line without the terminator: only the
      last line can lack one, and then the element is the whole line. */
  lemma DecodeLines(data: string, k: int)
    requires 0 <= k < |Decode(data)|
    ensures |Decode(data)| == |ReadLines(data)|
    ensures ReadLines(data)[k] == Decode(data)[k] + "\n" ||
      (k == |Decode(data)| - 1 && ReadLines(data)[k] == Decode(data)[k])
  {
    var lines := ReadLines(data);
    var line := lines[k];
    StripLinesAt(lines, k);
    LineLosesTerminator(line);
    if k < |lines| - 1 {
      ReadLinesTerminated(data, k);
    }
    SplitAround(line, |line| - 1);
    assert line[|line|..] == [];
  }

  /** readlines cuts the first line just after the first '\n'. */
  lemma ReadLinesFirstLine(data: string, i: int)
    requires 0 <= i < |data| && i == Find(data, '\n')
    ensures ReadLines(data) == [data[..i + 1]] + ReadLines(data[i + 1..])
  {
  }

  /** The lines of an encoding of newline-free elements are the elements, each terminated. */
  lemma {:induction false} ReadLinesEncode(arr: seq<string>)
    requires NoNewlines(arr)
    ensures |ReadLines(Encode(arr))| == |arr|
    ensures forall k :: 0 <= k < |arr| ==> ReadLines(Encode(arr))[k] == arr[k] + "\n"
  {
    if arr != [] {
      var rest := arr[1..];
      assert NoNewlines(rest) by {
        forall k | 0 <= k < |rest| ensures '\n' !in rest[k] {
          assert rest[k] == arr[k + 1];
        }
      }
      ReadLinesEncode(rest);
      var text := Encode(arr);
      var i := |arr[0]|;
      assert text == arr[0] + ['\n'] + Encode(rest);
      FindAfterPrefix(arr[0], '\n', Encode(rest));
      assert text[..i + 1] == arr[0] + "\n";
      assert text[i + 1..] == Encode(rest);
      ReadLinesFirstLine(text, i);
      var lines := ReadLines(text);
      forall k | 1 <= k < |arr| ensures lines[k] == arr[k] + "\n" {
        assert lines[k] == ReadLines(Encode(rest))[k - 1];
        assert rest[k - 1] == arr[k];
      }
    }
  }

  /** Round trip: load gives back what save wrote, when no element holds '\n'. */
  lemma RoundTrip(arr: seq<string>)
    requires NoNewlines(arr)
    ensures Decode(Encode(arr)) == arr
  {
    ReadLinesEncode(arr);
    var lines := ReadLines(Encode(arr));
    forall k | 0 <= k < |arr| ensures Decode(Encode(arr))[k] == arr[k] {
      StripLinesAt(lines, k);
      LineLosesTerminator(lines[k]);
      assert lines[k][..|lines[k]| - 1] == arr[k];
    }
  }

  /** The element count survives the round trip: one line per element. */
  lemma LineCount(arr: seq<string>)
    requires NoNewlines(arr)
    ensures |ReadLines(Encode(arr))| == |arr|
    ensures |Decode(Encode(arr))| == |arr|
  {
    ReadLinesEncode(arr);
  }

  /** An element holding a '\n' comes back as two elements. */
  lemma SplitElement(x: string, y: string)
    requires '\n' !in x && '\n' !in y
    ensures Decode(Encode([x + "\n" + y])) == [x, y]
  {
    assert Encode([x + "\n" + y]) == Encode([x, y]) by {
      assert [x, y][1..] == [y];
      assert [y][1..] == [];
      assert [x + "\n" + y][1..] == [];
    }
    RoundTrip([x, y]);
  }

  /** Load reads the text up to the first '\n' as its first element. */
  lemma DecodeFirstLine(data: string, i: int)
    requires 0 <= i < |data| && i == Find(data, '\n')
    ensures Decode(data) == [data[..i]] + Decode(data[i + 1..])
  {
    var line := data[..i + 1];
    ReadLinesFirstLine(data, i);
    LineLosesTerminator(line);
    assert line[..|line| - 1] == data[..i];
    var lines := ReadLines(data);
    assert lines[1..] == ReadLines(data[i + 1..]);
  }

  /** The other direction: a '\n'-terminated member text is what save would
      write for the array load reads from it. */
  lemma {:induction false} EncodeDecode(data: string)
    requires data == [] || data[|data| - 1] == '\n'
    ensures Encode(Decode(data)) == data
    decreases |data|
  {
    if data != [] {
      var i := Find(data, '\n');
      assert 0 <= i;
      var rest := data[i + 1..];
      assert rest == [] || rest[|rest| - 1] == '\n';
      DecodeFirstLine(data, i);
      EncodeDecode(rest);
      EncodeCons(data[..i], Decode(rest));
      SplitAround(data, i);
    }
  }
}
