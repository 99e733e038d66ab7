/**
  The text line format of the persistence file: one entry per line, the key's
  text, a single tab, the value's text. Keys and values are turned into text
  and back by a Codec, the counterpart of the key and value types' Display and
  FromStr implementations.
 */
module LineFormat {
  import opened Wrappers

  const Tab: char := '\t'

  /** How a key or value type is rendered as text and parsed back. */
  datatype Codec<!T> = Codec(render: T -> string, parse: string -> Option<T>)

  /** The number of occurrences of `c` in `s`. */
  function Count(s: string, c: char): nat
  {
    if s == [] then 0 else (if s[0] == c then 1 else 0) + Count(s[1..], c)
  }

  /**
    The pieces of `s` between occurrences of `sep`, as `str::split` with a
    single-character pattern yields them: n separators give n + 1 pieces, any
    of which may be empty, and no piece contains the separator.
   */
  function Split(s: string, sep: char): (fields: seq<string>)
    ensures |fields| == Count(s, sep) + 1
    ensures forall i :: 0 <= i < |fields| ==> sep !in fields[i]
  {
    if s == [] then [""]
    else
      var rest := Split(s[1..], sep);
      if s[0] == sep then [""] + rest
      else [[s[0]] + rest[0]] + rest[1..]
  }

  /** The pieces glued back together with `sep` between them. */
  function Join(fields: seq<string>, sep: char): string
    requires fields != []
  {
    if |fields| == 1 then fields[0] else fields[0] + [sep] + Join(fields[1..], sep)
  }

  /** Splitting loses nothing: joining the pieces gives the line back. */
  lemma {:induction false} JoinSplit(s: string, sep: char)
    ensures Join(Split(s, sep), sep) == s
  {
    if s != [] {
      var rest := Split(s[1..], sep);
      JoinSplit(s[1..], sep);
      if s[0] == sep {
        assert ([""] + rest)[1..] == rest;
      } else {
        var fields := [[s[0]] + rest[0]] + rest[1..];
        assert fields[1..] == rest[1..];
        if |rest| > 1 {
          assert Join(rest, sep) == rest[0] + [sep] + Join(rest[1..], sep);
        }
      }
    }
  }

  /** Text that holds no separator is a single piece, whatever follows after a separator. */
  lemma {:induction false} SplitPrefix(a: string, sep: char, b: string)
    requires sep !in a
    ensures Split(a + [sep] + b, sep) == [a] + Split(b, sep)
  {
    if a == [] {
      assert a + [sep] + b == [sep] + b;
      assert ([sep] + b)[1..] == b;
    } else {
      SplitPrefix(a[1..], sep, b);
      assert (a + [sep] + b)[1..] == a[1..] + [sep] + b;
      assert [a[0]] + a[1..] == a;
    }
  }

  lemma {:induction false} SplitNoSeparator(a: string, sep: char)
    requires sep !in a
    ensures Split(a, sep) == [a]
  {
    if a != [] {
      SplitNoSeparator(a[1..], sep);
      assert [a[0]] + a[1..] == a;
    }
  }

  /**
    The line that stores one entry: the key's text, a tab, the value's text.
    When neither text holds a tab, splitting the line at tabs gives the two
    texts back. The line holds a line break exactly when one of the texts does,
    and it ends in a carriage return exactly when the value's text does.
   */
  function RenderLine<K, V>(key: K, value: V, kc: Codec<K>, vc: Codec<V>): (line: string)
    ensures Tab !in kc.render(key) && Tab !in vc.render(value) ==>
      Split(line, Tab) == [kc.render(key), vc.render(value)]
    ensures Newline in line <==> Newline in kc.render(key) || Newline in vc.render(value)
    ensures EndsInCR(line) <==> EndsInCR(vc.render(value))
  {
    var a, b := kc.render(key), vc.render(value);
    assert Tab !in a && Tab !in b ==> Split(a + [Tab] + b, Tab) == [a, b] by {
      if Tab !in a && Tab !in b {
        SplitPrefix(a, Tab, b);
        SplitNoSeparator(b, Tab);
      }
    }
    a + [Tab] + b
  }

  const Newline: char := '\n'
  const CarriageReturn: char := '\r'

  predicate EndsInCR(s: string)
  {
    s != [] && s[|s| - 1] == CarriageReturn
  }

  /** The text of a file written with one `writeln!` per line: each line followed by a line break. */
  function FileText(lines: seq<string>): (text: string)
    ensures |text| >= |lines|
    ensures (forall i :: 0 <= i < |lines| ==> Newline !in lines[i]) ==> Count(text, Newline) == |lines|
  {
    if lines == [] then []
    else
      var rest := FileText(lines[1..]);
      assert Newline !in lines[0] ==> Count(lines[0] + [Newline] + rest, Newline) == Count(rest, Newline) + 1 by {
        CountAppend(lines[0], [Newline] + rest, Newline);
        assert lines[0] + [Newline] + rest == lines[0] + ([Newline] + rest);
        if Newline !in lines[0] {
          CountAbsent(lines[0], Newline);
        }
      }
      lines[0] + [Newline] + rest
  }

  /** Writing one more line appends it and its line break to the text. */
  lemma {:induction false} FileTextSnoc(lines: seq<string>, line: string)
    ensures FileText(lines + [line]) == FileText(lines) + line + [Newline]
    decreases |lines|
  {
    if lines == [] {
      assert [line][1..] == [];
    } else {
      assert (lines + [line])[1..] == lines[1..] + [line];
      FileTextSnoc(lines[1..], line);
    }
  }

  /** A carriage return just before a line break is not part of the line. */
  function DropCR(piece: string): (line: string)
    ensures line == piece || (EndsInCR(piece) && line == piece[..|piece| - 1])
    ensures !EndsInCR(piece) ==> line == piece
  {
    if EndsInCR(piece) then piece[..|piece| - 1] else piece
  }

  function DropCRs(pieces: seq<string>): (lines: seq<string>)
    ensures |lines| == |pieces|
    ensures forall i :: 0 <= i < |pieces| ==> lines[i] == DropCR(pieces[i])
  {
    if pieces == [] then [] else [DropCR(pieces[0])] + DropCRs(pieces[1..])
  }

  /**
    The lines a reader yields from a text, as `BufRead::lines` does: the text
    is cut at line breaks; a line that ended in a line break loses a carriage
    return just before it; a last piece without a line break is a line only
    when it is not empty, so an empty text has no lines. No line holds a line break.
   */
  function Lines(text: string): (lines: seq<string>)
    ensures forall i :: 0 <= i < |lines| ==> Newline !in lines[i]
    ensures |lines| <= Count(text, Newline) + 1
  {
    var pieces := Split(text, Newline);
    var n := |pieces| - 1;
    var ended := DropCRs(pieces[..n]);
    assert forall i :: 0 <= i < n ==> Newline !in ended[i] by {
      forall i | 0 <= i < n ensures Newline !in ended[i] {
        assert Newline !in pieces[i];
        assert ended[i] == DropCR(pieces[i]);
      }
    }
    if pieces[n] == [] then ended else ended + [pieces[n]]
  }

  /**
    Reading back what was written: lines that hold no line break and do not
    end in a carriage return come back unchanged and in order.
   */
  lemma LinesOfFileText(lines: seq<string>)
    requires forall i :: 0 <= i < |lines| ==> Newline !in lines[i] && !EndsInCR(lines[i])
    ensures Lines(FileText(lines)) == lines
  {
    SplitFileText(lines);
    var pieces := Split(FileText(lines), Newline);
    assert pieces[..|lines|] == lines;
    assert DropCRs(lines) == lines;
  }

  lemma {:induction false} SplitFileText(lines: seq<string>)
    requires forall i :: 0 <= i < |lines| ==> Newline !in lines[i]
    ensures Split(FileText(lines), Newline) == lines + [[]]
    decreases |lines|
  {
    if lines != [] {
      SplitFileText(lines[1..]);
      SplitPrefix(lines[0], Newline, FileText(lines[1..]));
      assert [lines[0]] + (lines[1..] + [[]]) == lines + [[]];
    }
  }

  lemma {:induction false} CountAppend(a: string, b: string, c: char)
    ensures Count(a + b, c) == Count(a, c) + Count(b, c)
  {
    if a == [] {
      assert a + b == b;
    } else {
      assert (a + b)[0] == a[0] && (a + b)[1..] == a[1..] + b;
      CountAppend(a[1..], b, c);
    }
  }

  lemma {:induction false} CountAbsent(a: string, c: char)
    requires c !in a
    ensures Count(a, c) == 0
  {
    if a != [] {
      CountAbsent(a[1..], c);
    }
  }

  /**
    Reads one line back: it is accepted only when splitting at tabs gives
    exactly two fields and both parse; every other line yields None.
   */
  function ParseLine<K, V>(line: string, kc: Codec<K>, vc: Codec<V>): (r: Option<(K, V)>)
    ensures r.Some? ==> Count(line, Tab) == 1
  {
    var parts := Split(line, Tab);
    if |parts| == 2 then
      match (kc.parse(parts[0]), vc.parse(parts[1]))
      case (Some(k), Some(v)) => Some((k, v))
      case _ => None
    else None
  }

  /**
    A line with exactly one tab is its first field, the tab and its second
    field, and neither field holds a tab.
   */
  lemma OneTab(line: string)
    requires Count(line, Tab) == 1
    ensures var parts := Split(line, Tab);
      && |parts| == 2
      && line == parts[0] + [Tab] + parts[1]
      && Tab !in parts[0] && Tab !in parts[1]
  {
    JoinSplit(line, Tab);
    var parts := Split(line, Tab);
    assert Join(parts[1..], Tab) == parts[1];
  }

  /** Parsing two tab-free fields joined by a tab: Some exactly when both fields parse. */
  lemma ParseFields<K, V>(a: string, b: string, kc: Codec<K>, vc: Codec<V>)
    requires Tab !in a && Tab !in b
    ensures ParseLine(a + [Tab] + b, kc, vc) ==
      match (kc.parse(a), vc.parse(b))
      case (Some(k), Some(v)) => Some((k, v))
      case _ => None
  {
    SplitPrefix(a, Tab, b);
    SplitNoSeparator(b, Tab);
  }

  /** Round trip: a rendered entry whose two texts hold no tab and parse back reads back as itself. */
  lemma ParseRenderLine<K, V>(key: K, value: V, kc: Codec<K>, vc: Codec<V>)
    requires Tab !in kc.render(key) && kc.parse(kc.render(key)) == Some(key)
    requires Tab !in vc.render(value) && vc.parse(vc.render(value)) == Some(value)
    ensures ParseLine(RenderLine(key, value, kc, vc), kc, vc) == Some((key, value))
  {
    ParseFields(kc.render(key), vc.render(value), kc, vc);
  }
}
