/** The flat-file side shared by the three record stores: a data file that may be
    missing, its lines as `std::getline(file, line)` reads them, the header line
    that loading skips, and the file that saving writes. */
module Storage {
  import opened Text
  import Records

  /** A data file: missing (it cannot be opened for reading), or present with its text. */
  datatype FileState = Absent | Present(text: string)

  /** The lines a load looks at: every line but the first, which is taken to be the
      header whatever it holds; none when the file is missing or empty. */
  function DataLines(f: FileState): (ls: seq<string>)
    ensures f.Present? && |Split(f.text, '\n')| > 0 ==> ls == Split(f.text, '\n')[1..]
    ensures f.Absent? ==> ls == []
    ensures f.Present? && f.text == "" ==> ls == []
  {
    match f
    case Absent => []
    case Present(text) =>
      var all := Split(text, '\n');
      if all == [] then [] else all[1..]
  }

  /** What a save writes: the header, then each record line, each ended by a newline. */
  function Render(header: string, lines: seq<string>): string
  {
    Terminated([header] + lines, '\n')
  }

  /** The save loop: the header line first, then one line more per record. */
  lemma RenderHeaderOnly(header: string)
    ensures Render(header, []) == header + "\n"
  {
    TerminatedSnoc([], header, '\n');
    assert [header] + [] == [] + [header];
  }

  lemma RenderSnoc(header: string, lines: seq<string>, line: string)
    ensures Render(header, lines + [line]) == Render(header, lines) + line + "\n"
  {
    TerminatedSnoc([header] + lines, line, '\n');
    assert [header] + (lines + [line]) == ([header] + lines) + [line];
  }

  /** Loading a file that was just saved gives back the saved lines. */
  lemma ReadRendered(header: string, lines: seq<string>)
    requires '\n' !in header && FreeOf(lines, '\n')
    ensures DataLines(Present(Render(header, lines))) == lines
  {
    SplitTerminated([header] + lines, '\n');
    assert ([header] + lines)[1..] == lines;
  }

  /** The load loop's filter: decode each non-empty line and keep the record when its
      id is positive, in file order. */
  function KeepDecoded<T, A>(lines: seq<string>, decode: (string, A) -> T, a: A, key: T -> int): (r: seq<T>)
    ensures |r| <= |lines|
    ensures forall k | 0 <= k < |r| :: key(r[k]) > 0
  {
    if lines == [] then []
    else
      var init := KeepDecoded(lines[..|lines| - 1], decode, a, key);
      var line := lines[|lines| - 1];
      if line != "" && key(decode(line, a)) > 0 then init + [decode(line, a)] else init
  }

  /** One more line read: its record is appended when it is kept. */
  lemma KeepDecodedSnoc<T, A>(lines: seq<string>, line: string, decode: (string, A) -> T, a: A, key: T -> int)
    ensures KeepDecoded(lines + [line], decode, a, key) ==
            KeepDecoded(lines, decode, a, key) + (if line != "" && key(decode(line, a)) > 0 then [decode(line, a)] else [])
  {
    assert (lines + [line])[..|lines|] == lines;
  }

  /** Blank lines and lines that decode to a record without a positive id are the
      ones dropped: every other line contributes its record. */
  lemma {:induction false} KeepDecodedAll<T, A>(lines: seq<string>, decode: (string, A) -> T, a: A, key: T -> int)
    ensures |KeepDecoded(lines, decode, a, key)| == |lines| <==>
              forall k | 0 <= k < |lines| :: lines[k] != "" && key(decode(lines[k], a)) > 0
    decreases |lines|
  {
    if lines != [] {
      var n := |lines| - 1;
      KeepDecodedAll(lines[..n], decode, a, key);
      assert forall k | 0 <= k < n :: lines[..n][k] == lines[k];
    }
  }

  /** Decoding freshly encoded records: when every record's line is non-empty and
      decodes to ys[k], which has a positive id, loading yields exactly ys. */
  lemma {:induction false} KeepDecodedOfEncoded<T, A>(xs: seq<T>, ys: seq<T>, encode: (T, A) -> string,
                                                     decode: (string, A) -> T, a: A, key: T -> int)
    requires |xs| == |ys|
    requires forall k | 0 <= k < |xs| ::
               encode(xs[k], a) != "" && decode(encode(xs[k], a), a) == ys[k] && key(ys[k]) > 0
    ensures KeepDecoded(Records.Map(xs, encode, a), decode, a, key) == ys
    decreases |xs|
  {
    if xs != [] {
      var n := |xs| - 1;
      var lines := Records.Map(xs, encode, a);
      assert lines[..n] == Records.Map(xs[..n], encode, a);
      KeepDecodedOfEncoded(xs[..n], ys[..n], encode, decode, a, key);
      assert ys == ys[..n] + [ys[n]];
    }
  }
}
