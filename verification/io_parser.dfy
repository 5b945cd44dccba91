/**
 * The manifest and prediction files of the pipeline. A manifest lists one image file name and
 * one integer class label per entry, separated by whitespace; file names are relative to the
 * directory of the manifest. A prediction file holds one `name label` line per image.
 *
 * The manifest is given as its whitespace-separated words and whether whitespace follows the
 * last word; the stream the source reads it through is modelled by its position and its end-of-file
 * and failure flags, with word and integer extraction as functions on that state.
 */
module IoParser {

  import opened Outcomes
  import opened Grids

  /** One file-list entry: an image path and its class label. */
  datatype Entry = Entry(path: string, classLabel: int)

  /** One data-set entry: a decoded image and its class label. */
  datatype Loaded = Loaded(image: Grid<Pixel>, classLabel: int)

  /** Directory separators on either platform. */
  predicate IsSeparator(c: char)
  {
    c == '/' || c == '\\'
  }

  // ----- directory prefix -----

  /** `s` up to and including its last separator, or empty when it has none. */
  function DirPart(s: string): (p: string)
    ensures |p| <= |s|
  {
    if s == [] then []
    else if IsSeparator(s[|s| - 1]) then s
    else DirPart(s[..|s| - 1])
  }

  /** The scan from the end of the manifest path back to its last separator. */
  method DirPrefix(dataFile: string) returns (dataPath: string)
    ensures dataPath == DirPart(dataFile)
  {
    var i: int := |dataFile| - 1;
    assert dataFile[..i + 1] == dataFile;
    while i >= 0 && !IsSeparator(dataFile[i])
      invariant -1 <= i < |dataFile|
      invariant DirPart(dataFile) == DirPart(dataFile[..i + 1])
    {
      assert dataFile[..i + 1][..i] == dataFile[..i];
      i := i - 1;
    }
    dataPath := dataFile[..i + 1];
  }

  /** The directory part is a prefix ending in a separator, and the rest has no separator. */
  lemma {:induction false} DirPartSplit(s: string)
    ensures s[..|DirPart(s)|] == DirPart(s)
    ensures DirPart(s) == [] || IsSeparator(DirPart(s)[|DirPart(s)| - 1])
    ensures forall k :: |DirPart(s)| <= k < |s| ==> !IsSeparator(s[k])
  {
    if s != [] && !IsSeparator(s[|s| - 1]) {
      var p := s[..|s| - 1];
      DirPartSplit(p);
      assert s[..|DirPart(p)|] == p[..|DirPart(p)|];
    }
  }

  /** Any split into a separator-terminated head and a separator-free tail is the directory split. */
  lemma {:induction false} DirPartUnique(s: string, p: string, r: string)
    requires s == p + r
    requires p == [] || IsSeparator(p[|p| - 1])
    requires forall k :: 0 <= k < |r| ==> !IsSeparator(r[k])
    ensures DirPart(s) == p
    decreases |r|
  {
    if r == [] {
      assert s == p;
    } else {
      var q := r[..|r| - 1];
      assert s[..|s| - 1] == p + q;
      assert s[|s| - 1] == r[|r| - 1];
      DirPartUnique(s[..|s| - 1], p, q);
    }
  }

  /** The directory part of a directory part is itself. */
  lemma DirPartIdempotent(s: string)
    ensures DirPart(DirPart(s)) == DirPart(s)
  {
    DirPartSplit(s);
    DirPartUnique(DirPart(s), DirPart(s), []);
  }

  // ----- decimal labels -----

  predicate IsDigit(c: char)
  {
    '0' as int <= c as int <= '9' as int
  }

  function DigitValue(c: char): nat
    requires IsDigit(c)
  {
    c as int - '0' as int
  }

  /** The value of a non-empty run of decimal digits, most significant first, or None. */
  function ParseDigits(s: string): Option<nat>
  {
    if s == [] || !IsDigit(s[|s| - 1]) then None
    else if |s| == 1 then Some(DigitValue(s[0]))
    else match ParseDigits(s[..|s| - 1])
      case None => None
      case Some(v) => Some(v * 10 + DigitValue(s[|s| - 1]))
  }

  /** Integer extraction from one word: an optional sign followed by at least one digit. */
  function ParseLabel(w: string): (r: Option<int>)
    ensures r.Some? ==> w != []
  {
    if w != [] && (w[0] == '-' || w[0] == '+') then
      match ParseDigits(w[1..])
        case None => None
        case Some(v) => Some(if w[0] == '-' then 0 - v else v)
    else match ParseDigits(w)
      case None => None
      case Some(v) => Some(v)
  }

  /** The decimal digits of `n`, most significant first, without leading zeros. */
  function Decimal(n: nat): (s: string)
    ensures s != [] && IsDigit(s[0])
  {
    if n < 10 then ['0' + n as char] else Decimal(n / 10) + ['0' + (n % 10) as char]
  }

  /** The text a stream insertion writes for `i`: a minus sign for negatives, then the digits. */
  function FormatInt(i: int): (s: string)
    ensures s != []
  {
    if i < 0 then "-" + Decimal(-i) else Decimal(i)
  }

  /** The digits of `n` read back as `n`. */
  lemma {:induction false} DecimalValue(n: nat)
    ensures ParseDigits(Decimal(n)) == Some(n)
  {
    if n >= 10 {
      var s := Decimal(n);
      assert s[..|s| - 1] == Decimal(n / 10);
      DecimalValue(n / 10);
    }
  }

  /** A label written to a prediction file reads back as the same label. */
  lemma FormatIntRoundTrip(i: int)
    ensures ParseLabel(FormatInt(i)) == Some(i)
  {
    var w := FormatInt(i);
    if i < 0 {
      assert w[0] == '-' && w[1..] == Decimal(-i);
      DecimalValue(-i);
    } else {
      assert w == Decimal(i) && IsDigit(w[0]);
      DecimalValue(i);
    }
  }

  // ----- the manifest stream -----

  /**
   * A manifest file: whether it could be opened for reading, its whitespace-separated words in order, and
   * whether whitespace follows the last word (a final newline, say).
   */
  datatype Manifest = Manifest(readable: bool, words: seq<string>, trailing: bool)

  /** The name word of entry `i` when the words alternate name and label. */
  function NameWord(m: Manifest, i: nat): string
    requires 2 * i + 1 < |m.words|
  {
    m.words[2 * i]
  }

  /** The label word of entry `i` when the words alternate name and label. */
  function LabelWord(m: Manifest, i: nat): string
    requires 2 * i + 1 < |m.words|
  {
    m.words[2 * i + 1]
  }

  /** The words alternate a non-empty file name and an integer label. */
  predicate Paired(m: Manifest)
  {
    |m.words| % 2 == 0 &&
    forall i :: 0 <= i < |m.words| / 2 ==> NameWord(m, i) != [] && ParseLabel(LabelWord(m, i)).Some?
  }

  /** Entry `i` of a well-formed manifest, its name prefixed with the directory. */
  function PairEntry(m: Manifest, dataPath: string, i: nat): Entry
    requires Paired(m) && i < |m.words| / 2
  {
    Entry(dataPath + NameWord(m, i), ParseLabel(LabelWord(m, i)).value)
  }

  /** The state of an input stream: the next word, and the end-of-file and failure flags. */
  datatype Stream = Stream(pos: nat, eof: bool, fail: bool)

  /** A stream that could not be opened starts out failed. */
  function Open(m: Manifest): Stream
  {
    Stream(0, false, !m.readable)
  }

  /**
   * Extracting a word into a string that holds `current`: a stream that is not good fails and
   * leaves the string alone, skipping whitespace into the end of the file fails and leaves it
   * alone, and otherwise the next word is read, reaching the end of the file when nothing follows it.
   */
  function ExtractWord(m: Manifest, st: Stream, current: string): (r: (Stream, string))
    requires st.pos <= |m.words|
    ensures st.pos <= r.0.pos <= |m.words|
    ensures r.0.pos == st.pos ==> r.0.fail
    ensures !r.0.fail ==> r.0.pos == st.pos + 1 && r.1 == m.words[st.pos]
    ensures r.0.fail ==> r.1 == current
  {
    if st.fail || st.eof then (st.(fail := true), current)
    else if st.pos == |m.words| then (Stream(st.pos, true, true), current)
    else (Stream(st.pos + 1, st.pos + 1 == |m.words| && !m.trailing, false), m.words[st.pos])
  }

  /**
   * Extracting an integer into a variable that holds `current`: as for a word, except that a word
   * that is not an integer fails the stream and stores zero.
   */
  function ExtractLabel(m: Manifest, st: Stream, current: int): (r: (Stream, int))
    requires st.pos <= |m.words|
    ensures st.pos <= r.0.pos <= |m.words|
    ensures r.0.pos == st.pos ==> r.0.fail
    ensures !r.0.fail ==> r.0.pos == st.pos + 1 && ParseLabel(m.words[st.pos]) == Some(r.1)
    ensures r.0.fail ==> r.0.pos == st.pos
    ensures r.0.fail && !st.fail && !st.eof && st.pos < |m.words| ==> r.1 == 0 && ParseLabel(m.words[st.pos]).None?
    ensures (st.fail || st.eof || st.pos == |m.words|) ==> r.0.fail && r.1 == current
  {
    if st.fail || st.eof then (st.(fail := true), current)
    else if st.pos == |m.words| then (Stream(st.pos, true, true), current)
    else match ParseLabel(m.words[st.pos])
      case Some(v) => (Stream(st.pos + 1, st.pos + 1 == |m.words| && !m.trailing, false), v)
      case None => (st.(fail := true), 0)
  }

  /** What remains to decrease while the stream is read. */
  function Remaining(m: Manifest, st: Stream): nat
    requires st.pos <= |m.words|
  {
    |m.words| - st.pos + (if st.fail then 0 else 1)
  }

  /**
   * The entries the manifest loop appends from stream state `st` on, with `filename` and `label`
   * holding what the previous round left in them: while the stream is neither at the end nor
   * failed, extract a name and a label and append the pair whenever the name is non-empty.
   */
  function Listed(m: Manifest, dataPath: string, st: Stream, filename: string, classLabel: int): seq<Entry>
    requires st.pos <= |m.words|
    decreases Remaining(m, st)
  {
    if st.eof || st.fail then []
    else
      var (s1, f) := ExtractWord(m, st, filename);
      var (s2, l) := ExtractLabel(m, s1, classLabel);
      (if f != [] then [Entry(dataPath + f, l)] else []) + Listed(m, dataPath, s2, f, l)
  }

  /**
   * The manifest loop as written. `unset` is whatever the uninitialised label variable holds
   * before the first extraction stores into it.
   */
  method LoadFileList(dataFile: string, m: Manifest, unset: int, fileList: seq<Entry>)
    returns (out: seq<Entry>)
    ensures out == fileList + Listed(m, DirPart(dataFile), Open(m), "", unset)
  {
    var dataPath := DirPrefix(dataFile);
    var st := Open(m);
    var filename, classLabel := "", unset;
    out := fileList;
    while !st.eof && !st.fail
      invariant st.pos <= |m.words|
      invariant out + Listed(m, dataPath, st, filename, classLabel) == fileList + Listed(m, dataPath, Open(m), "", unset)
      decreases Remaining(m, st)
    {
      var rw := ExtractWord(m, st, filename);
      var rl := ExtractLabel(m, rw.0, classLabel);
      ghost var before := out;
      if rw.1 != [] {
        out := out + [Entry(dataPath + rw.1, rl.1)];
      }
      assert out + Listed(m, dataPath, rl.0, rw.1, rl.1) == before + Listed(m, dataPath, st, filename, classLabel);
      st, filename, classLabel := rl.0, rw.1, rl.1;
    }
  }

  /**
   * The entries a loop that appends only after both extractions succeed reads from `st` on: one
   * per name and label pair, stopping at the first failed extraction.
   */
  function Pairs(m: Manifest, dataPath: string, st: Stream): seq<Entry>
    requires st.pos <= |m.words|
    decreases Remaining(m, st)
  {
    if st.fail then []
    else
      var (s1, f) := ExtractWord(m, st, "");
      var (s2, l) := ExtractLabel(m, s1, 0);
      if s2.fail then [] else [Entry(dataPath + f, l)] + Pairs(m, dataPath, s2)
  }

  /** The manifest loop with the stream tested after the extractions, before appending. */
  method LoadFileListCorrected(dataFile: string, m: Manifest, fileList: seq<Entry>)
    returns (out: seq<Entry>)
    ensures out == fileList + Pairs(m, DirPart(dataFile), Open(m))
  {
    var dataPath := DirPrefix(dataFile);
    var st := Open(m);
    out := fileList;
    while !st.fail
      invariant st.pos <= |m.words|
      invariant out + Pairs(m, dataPath, st) == fileList + Pairs(m, dataPath, Open(m))
      decreases Remaining(m, st)
    {
      var rw := ExtractWord(m, st, "");
      var rl := ExtractLabel(m, rw.0, 0);
      if rl.0.fail {
        st := rl.0;
      } else {
        out := out + [Entry(dataPath + rw.1, rl.1)];
        st := rl.0;
      }
    }
  }

  /** The stream after entry `i` of a well-formed manifest has been read. */
  function NextPair(m: Manifest, i: nat): Stream
  {
    Stream(2 * i + 2, 2 * i + 2 == |m.words| && !m.trailing, false)
  }

  /** On a well-formed manifest, one round of the checked loop reads one entry. */
  lemma PairsStep(m: Manifest, dataPath: string, i: nat)
    requires Paired(m) && i < |m.words| / 2
    ensures Pairs(m, dataPath, Stream(2 * i, false, false)) == [PairEntry(m, dataPath, i)] + Pairs(m, dataPath, NextPair(m, i))
  {
  }

  /** On a well-formed manifest, the checked loop lists the entries from `i` on, in order. */
  lemma {:induction false} PairsLayout(m: Manifest, dataPath: string, i: nat, eof: bool)
    requires Paired(m) && i <= |m.words| / 2
    requires eof ==> 2 * i == |m.words|
    ensures |Pairs(m, dataPath, Stream(2 * i, eof, false))| == |m.words| / 2 - i
    ensures forall k :: 0 <= k < |m.words| / 2 - i ==> Pairs(m, dataPath, Stream(2 * i, eof, false))[k] == PairEntry(m, dataPath, i + k)
    decreases |m.words| - 2 * i
  {
    if i < |m.words| / 2 {
      PairsStep(m, dataPath, i);
      var next := NextPair(m, i);
      PairsLayout(m, dataPath, i + 1, next.eof);
    }
  }

  /** The checked loop lists every entry of a well-formed manifest, in order. */
  lemma LoadFileListCorrectedLayout(m: Manifest, dataPath: string)
    requires m.readable && Paired(m)
    ensures |Pairs(m, dataPath, Open(m))| == |m.words| / 2
    ensures forall k :: 0 <= k < |m.words| / 2 ==> Pairs(m, dataPath, Open(m))[k] == PairEntry(m, dataPath, k)
  {
    PairsLayout(m, dataPath, 0, false);
  }

  /** The entries the loop as written adds after the last pair: the last once more after trailing whitespace. */
  function Repeated(m: Manifest, dataPath: string): seq<Entry>
    requires Paired(m) && m.words != []
  {
    if m.trailing then [PairEntry(m, dataPath, |m.words| / 2 - 1)] else []
  }

  /** From entry `i` on, the loop as written lists the entries, then what trailing whitespace repeats. */
  lemma {:induction false} ListedFrom(m: Manifest, dataPath: string, i: nat, filename: string, classLabel: int)
    requires Paired(m) && i < |m.words| / 2
    ensures Listed(m, dataPath, Stream(2 * i, false, false), filename, classLabel) ==
      Pairs(m, dataPath, Stream(2 * i, false, false)) + Repeated(m, dataPath)
    decreases |m.words| - 2 * i
  {
    if i + 1 < |m.words| / 2 {
      PairsStep(m, dataPath, i);
      ListedStep(m, dataPath, i, filename, classLabel);
      var e := PairEntry(m, dataPath, i);
      var next := NextPair(m, i);
      assert next == Stream(2 * (i + 1), false, false);
      ListedFrom(m, dataPath, i + 1, NameWord(m, i), e.classLabel);
      assert [e] + (Pairs(m, dataPath, next) + Repeated(m, dataPath)) == [e] + Pairs(m, dataPath, next) + Repeated(m, dataPath);
    } else {
      ListedLast(m, dataPath, i, filename, classLabel);
    }
  }

  /** From the last entry on, the loop as written lists it, and once more after trailing whitespace. */
  lemma ListedLast(m: Manifest, dataPath: string, i: nat, filename: string, classLabel: int)
    requires Paired(m) && i + 1 == |m.words| / 2
    ensures Listed(m, dataPath, Stream(2 * i, false, false), filename, classLabel) ==
      Pairs(m, dataPath, Stream(2 * i, false, false)) + Repeated(m, dataPath)
  {
    PairsStep(m, dataPath, i);
    ListedStep(m, dataPath, i, filename, classLabel);
    var e := PairEntry(m, dataPath, i);
    var next := NextPair(m, i);
    assert Pairs(m, dataPath, next) == [];
    if m.trailing {
      assert Listed(m, dataPath, next, NameWord(m, i), e.classLabel) == [e];
    } else {
      assert Listed(m, dataPath, next, NameWord(m, i), e.classLabel) == [];
    }
  }

  /** On a well-formed manifest, one round of the loop as written reads and lists one entry. */
  lemma ListedStep(m: Manifest, dataPath: string, i: nat, filename: string, classLabel: int)
    requires Paired(m) && i < |m.words| / 2
    ensures Listed(m, dataPath, Stream(2 * i, false, false), filename, classLabel) ==
      [PairEntry(m, dataPath, i)] + Listed(m, dataPath, NextPair(m, i), NameWord(m, i), PairEntry(m, dataPath, i).classLabel)
  {
    var st := Stream(2 * i, false, false);
    var r1 := ExtractWord(m, st, filename);
    assert r1 == (Stream(2 * i + 1, false, false), NameWord(m, i));
    var r2 := ExtractLabel(m, r1.0, classLabel);
    assert r2 == (NextPair(m, i), PairEntry(m, dataPath, i).classLabel);
  }

  /** When the manifest ends right after its last label, the loop as written lists the entries. */
  lemma LoadFileListWithoutTrailing(m: Manifest, dataPath: string, unset: int)
    requires m.readable && Paired(m) && !m.trailing
    ensures Listed(m, dataPath, Open(m), "", unset) == Pairs(m, dataPath, Open(m))
  {
    if m.words != [] {
      ListedFrom(m, dataPath, 0, "", unset);
    }
  }

  /**
   * When whitespace follows the last label, the loop as written lists the last entry twice: the
   * extra round's extractions fail at the end of the file and leave the previous name in place.
   */
  lemma TrailingWhitespaceRepeatsLast(m: Manifest, dataPath: string, unset: int)
    requires m.readable && Paired(m) && m.trailing && m.words != []
    ensures var ps := Pairs(m, dataPath, Open(m));
      ps != [] && Listed(m, dataPath, Open(m), "", unset) == ps + [ps[|ps| - 1]]
  {
    ListedFrom(m, dataPath, 0, "", unset);
    PairsLayout(m, dataPath, 0, false);
  }

  /** A two-line manifest ending in a newline yields its one entry twice. */
  lemma TrailingNewlineExample()
    ensures Listed(Manifest(true, ["a.bmp", "1"], true), "data/", Stream(0, false, false), "", 0)
      == [Entry("data/a.bmp", 1), Entry("data/a.bmp", 1)]
  {
    var m := Manifest(true, ["a.bmp", "1"], true);
    assert ParseLabel("1") == Some(1);
    assert LabelWord(m, 0) == "1";
    assert Paired(m);
    TrailingWhitespaceRepeatsLast(m, "data/", 0);
    PairsLayout(m, "data/", 0, false);
    assert PairEntry(m, "data/", 0) == Entry("data/a.bmp", 1);
  }

  /** Every listed entry is the manifest's directory followed by one of its words. */
  lemma {:induction false} ListedPaths(m: Manifest, dataPath: string, st: Stream, filename: string, classLabel: int, e: Entry)
    requires st.pos <= |m.words|
    requires filename == [] || filename in m.words
    requires e in Listed(m, dataPath, st, filename, classLabel)
    ensures exists w :: w in m.words && e.path == dataPath + w
    decreases Remaining(m, st)
  {
    var (s1, f) := ExtractWord(m, st, filename);
    var (s2, l) := ExtractLabel(m, s1, classLabel);
    if e != Entry(dataPath + f, l) || f == [] {
      ListedPaths(m, dataPath, s2, f, l, e);
    }
  }

  // ----- images and predictions -----

  /**
   * Reads every listed image, in order, appending it with its label. `read` stands for decoding
   * the file at a path.
   */
  method LoadImages(fileList: seq<Entry>, read: string -> Grid<Pixel>, dataSet: seq<Loaded>)
    returns (out: seq<Loaded>)
    ensures |out| == |dataSet| + |fileList| && out[..|dataSet|] == dataSet
    ensures forall k :: 0 <= k < |fileList| ==>
      out[|dataSet| + k] == Loaded(read(fileList[k].path), fileList[k].classLabel)
  {
    out := dataSet;
    var i := 0;
    while i < |fileList|
      invariant 0 <= i <= |fileList|
      invariant |out| == |dataSet| + i && out[..|dataSet|] == dataSet
      invariant forall k :: 0 <= k < i ==> out[|dataSet| + k] == Loaded(read(fileList[k].path), fileList[k].classLabel)
    {
      out := out + [Loaded(read(fileList[i].path), fileList[i].classLabel)];
      i := i + 1;
    }
  }

  /** The index of the first space in `s`, or its length when there is none. */
  function FirstSpace(s: string): (i: nat)
    ensures i <= |s| && (i < |s| ==> s[i] == ' ') && forall k :: 0 <= k < i ==> s[k] != ' '
  {
    if s == [] then 0 else if s[0] == ' ' then 0 else 1 + FirstSpace(s[1..])
  }

  /** One line of the prediction file: the path, a space, the label and a line break. */
  function PredictionLine(path: string, classLabel: int): string
  {
    path + " " + FormatInt(classLabel) + "\n"
  }

  /** Writes one line per image: its path and the predicted label. */
  method SavePredictions(fileList: seq<Entry>, labels: seq<int>) returns (lines: seq<string>)
    requires |fileList| == |labels|
    ensures |lines| == |fileList|
    ensures forall k :: 0 <= k < |lines| ==> lines[k] == PredictionLine(fileList[k].path, labels[k])
  {
    lines := [];
    var i := 0;
    while i < |fileList|
      invariant 0 <= i <= |fileList| && |lines| == i
      invariant forall k :: 0 <= k < i ==> lines[k] == PredictionLine(fileList[k].path, labels[k])
    {
      lines := lines + [PredictionLine(fileList[i].path, labels[i])];
      i := i + 1;
    }
  }

  /**
   * A prediction line splits at its first space into the path and the label, followed by the
   * line break, provided the path holds no space.
   */
  lemma PredictionLineReadsBack(path: string, classLabel: int)
    requires forall k :: 0 <= k < |path| ==> path[k] != ' '
    ensures var line := PredictionLine(path, classLabel); var i := FirstSpace(line);
      i == |path| && line[..i] == path && line[|line| - 1] == '\n' &&
      ParseLabel(line[i + 1..|line| - 1]) == Some(classLabel)
  {
    var line := PredictionLine(path, classLabel);
    assert line[|path|] == ' ';
    assert forall k :: 0 <= k < |path| ==> line[k] == path[k];
    assert line[|path| + 1..|line| - 1] == FormatInt(classLabel);
    FormatIntRoundTrip(classLabel);
  }
}
