/** The text of the long branch of `format_time`: each part as its count, a space and its unit's
    suffix, and the parts joined by single spaces. A reader that splits the text on spaces gets
    the parts back, so the text loses nothing of the decomposition. */
module Rendering {
  import opened Units
  import opened Numerals
  import opened Breakdown

  datatype Option<T> = None | Some(value: T)

  /** No character of `s` is a space. */
  predicate NoSpace(s: string)
  {
    forall k :: 0 <= k < |s| ==> s[k] != ' '
  }

  /** The words joined by single spaces, as Python's `' '.join`. */
  function Join(words: seq<string>): (s: string)
    ensures words == [] ==> s == []
    ensures |words| > 0 && words[0] != [] ==> s != []
  {
    if |words| == 0 then []
    else if |words| == 1 then words[0]
    else words[0] + " " + Join(words[1..])
  }

  /** The text of one part: its count in decimal, a space and its unit's suffix. */
  function PartText(units: UnitTable, p: Part): (s: string)
    ensures s != []
  {
    NatToString(p.count) + " " + Suffix(units, p.scale)
  }

  /** The text of one part splits at its one space into the count's digits, which read back as
      the count, and the suffix. */
  lemma PartTextSplits(units: UnitTable, p: Part)
    requires NoSpace(Suffix(units, p.scale))
    ensures |Split(PartText(units, p))| == 2
    ensures AllDigits(Split(PartText(units, p))[0])
    ensures DecimalValue(Split(PartText(units, p))[0]) == p.count
    ensures Split(PartText(units, p))[1] == Suffix(units, p.scale)
  {
    var c := NatToString(p.count);
    assert NoSpace(c) by {
      forall k | 0 <= k < |c|
        ensures c[k] != ' '
      {
        assert IsDigit(c[k]);
      }
    }
    SplitFirst(c, Suffix(units, p.scale));
    SplitWord(Suffix(units, p.scale));
    DecimalRoundTrip(p.count);
  }

  /** The text of each part, in order. */
  function Texts(units: UnitTable, ps: seq<Part>): (ts: seq<string>)
    ensures |ts| == |ps|
    ensures forall k :: 0 <= k < |ps| ==> ts[k] == PartText(units, ps[k])
  {
    if ps == [] then [] else [PartText(units, ps[0])] + Texts(units, ps[1..])
  }

  /** The text the long branch returns for a list of parts: empty exactly when there are none. */
  function Render(units: UnitTable, ps: seq<Part>): (s: string)
    ensures s == [] <==> ps == []
  {
    Join(Texts(units, ps))
  }

  // ---------------------------------------------------------------------------------------------
  // Reading the text back
  // ---------------------------------------------------------------------------------------------

  /** The pieces of `s` between single spaces, as Python's `s.split(' ')`. */
  function Split(s: string): (ws: seq<string>)
    ensures |ws| >= 1
  {
    if s == [] then [[]]
    else
      var rest := Split(s[1..]);
      if s[0] == ' ' then [[]] + rest else [[s[0]] + rest[0]] + rest[1..]
  }

  /** The walked unit whose suffix is `suffix`, if any. */
  function ScaleOf(units: UnitTable, suffix: string): Option<Scale>
  {
    if suffix == units.d then Some(Day)
    else if suffix == units.hr then Some(Hour)
    else if suffix == units.min then Some(Minute)
    else if suffix == units.sec then Some(Second)
    else None
  }

  /** The length in seconds of a walked unit, for the reader. */
  function LengthOf(scale: Scale): nat
  {
    match scale
    case Day => 86400
    case Hour => 3600
    case Minute => 60
    case _ => 1
  }

  /** The reader's lengths are the walk's: each unit of `Parts` gets the length listed beside it,
      and so does the unit of every valid part. */
  lemma LengthOfParts()
    ensures forall i :: 0 <= i < |Parts| ==> LengthOf(Parts[i].0) == Parts[i].1
    ensures forall p :: ValidPart(p) ==> LengthOf(p.scale) == p.length
  {
    forall p | ValidPart(p)
      ensures LengthOf(p.scale) == p.length
    {
      PartShape(p);
    }
  }

  predicate AllDigits(s: string)
  {
    forall k :: 0 <= k < |s| ==> IsDigit(s[k])
  }

  /** Pairs of words, a decimal count and a suffix, read back as parts. */
  function ParseWords(units: UnitTable, ws: seq<string>): Option<seq<Part>>
    decreases |ws|
  {
    if |ws| == 0 then Some([])
    else if |ws| == 1 || ws[0] == [] || !AllDigits(ws[0]) then None
    else
      match ScaleOf(units, ws[1])
      case None => None
      case Some(scale) =>
        match ParseWords(units, ws[2..])
        case None => None
        case Some(rest) => Some([Part(DecimalValue(ws[0]), scale, LengthOf(scale))] + rest)
  }

  /** The parts a rendered text stands for. */
  function Parse(units: UnitTable, s: string): Option<seq<Part>>
  {
    if s == [] then Some([]) else ParseWords(units, Split(s))
  }

  /** Suffixes a reader can tell apart: the four walked units have non-empty suffixes without
      spaces, no two alike. */
  predicate Readable(units: UnitTable)
  {
    && units.d != [] && units.hr != [] && units.min != [] && units.sec != []
    && NoSpace(units.d) && NoSpace(units.hr) && NoSpace(units.min) && NoSpace(units.sec)
    && units.d != units.hr && units.d != units.min && units.d != units.sec
    && units.hr != units.min && units.hr != units.sec && units.min != units.sec
  }

  /** The suffix table the formatter uses can be read back. */
  lemma DefaultReadable()
    ensures Readable(Default)
  {
    assert Default.d == "d" && Default.hr == "h" && Default.min == "min" && Default.sec == "s";
  }

  /** The words of the parts: count, suffix, count, suffix, ... */
  function Words(units: UnitTable, ps: seq<Part>): (ws: seq<string>)
    ensures |ws| == 2 * |ps|
  {
    if ps == [] then []
    else [NatToString(ps[0].count), Suffix(units, ps[0].scale)] + Words(units, ps[1..])
  }

  /** Joining the part texts is joining their words. */
  lemma {:induction false} JoinTexts(units: UnitTable, ps: seq<Part>)
    ensures Join(Texts(units, ps)) == Join(Words(units, ps))
    decreases |ps|
  {
    if ps != [] {
      var p := ps[0];
      var c, u := NatToString(p.count), Suffix(units, p.scale);
      var ws := Words(units, ps[1..]);
      JoinTexts(units, ps[1..]);
      assert Words(units, ps) == [c, u] + ws;
      assert ([c, u] + ws)[1..] == [u] + ws;
      assert ([u] + ws)[1..] == ws;
      if ps[1..] == [] {
        assert Texts(units, ps) == [c + " " + u];
      } else {
        assert Texts(units, ps)[1..] == Texts(units, ps[1..]);
      }
    }
  }

  /** A word without spaces splits to itself. */
  lemma {:induction false} SplitWord(w: string)
    requires NoSpace(w)
    ensures Split(w) == [w]
    decreases |w|
  {
    if w != [] {
      SplitWord(w[1..]);
      assert [w[0]] + w[1..] == w;
    }
  }

  /** A word without spaces followed by a space splits off first. */
  lemma {:induction false} SplitFirst(w: string, rest: string)
    requires NoSpace(w)
    ensures Split(w + " " + rest) == [w] + Split(rest)
    decreases |w|
  {
    var s := w + " " + rest;
    if w == [] {
      assert s[1..] == rest;
    } else {
      assert s[1..] == w[1..] + " " + rest;
      SplitFirst(w[1..], rest);
      assert [w[0]] + w[1..] == w;
    }
  }

  /** Splitting a join of non-empty words without spaces gives the words back. */
  lemma {:induction false} SplitJoin(ws: seq<string>)
    requires ws != []
    requires forall k :: 0 <= k < |ws| ==> NoSpace(ws[k])
    ensures Split(Join(ws)) == ws
    decreases |ws|
  {
    if |ws| == 1 {
      SplitWord(ws[0]);
    } else {
      SplitFirst(ws[0], Join(ws[1..]));
      SplitJoin(ws[1..]);
      assert [ws[0]] + ws[1..] == ws;
    }
  }

  /** The words of parts contain no spaces. */
  lemma {:induction false} WordsNoSpace(units: UnitTable, ps: seq<Part>)
    requires Readable(units)
    requires forall k :: 0 <= k < |ps| ==> ps[k].scale in {Day, Hour, Minute, Second}
    ensures forall k :: 0 <= k < 2 * |ps| ==> NoSpace(Words(units, ps)[k])
    decreases |ps|
  {
    if ps != [] {
      WordsNoSpace(units, ps[1..]);
      var ws := Words(units, ps);
      assert ws == [NatToString(ps[0].count), Suffix(units, ps[0].scale)] + Words(units, ps[1..]);
      forall k | 0 <= k < 2 * |ps|
        ensures NoSpace(ws[k])
      {
        if k >= 2 {
          assert ws[k] == Words(units, ps[1..])[k - 2];
        }
      }
    }
  }

  /** Reading the words of well-formed parts gives the parts back. */
  lemma {:induction false} ParseWordsRoundTrip(units: UnitTable, ps: seq<Part>)
    requires Readable(units)
    requires WellFormed(ps)
    ensures ParseWords(units, Words(units, ps)) == Some(ps)
    decreases |ps|
  {
    if ps != [] {
      var p := ps[0];
      var ws := Words(units, ps);
      PartShape(p);
      LengthOfParts();
      ParseWordsRoundTrip(units, ps[1..]);
      assert ws[2..] == Words(units, ps[1..]);
      DecimalRoundTrip(p.count);
      assert ScaleOf(units, ws[1]) == Some(p.scale);
      assert [p] + ps[1..] == ps;
    }
  }

  /** The text of well-formed parts, under readable suffixes, reads back as exactly those parts:
      rendering loses neither a count nor a unit nor the order. */
  lemma RenderRoundTrip(units: UnitTable, ps: seq<Part>)
    requires Readable(units)
    requires WellFormed(ps)
    ensures Parse(units, Render(units, ps)) == Some(ps)
  {
    if ps != [] {
      JoinTexts(units, ps);
      WellFormedOrdered(ps);
      forall k | 0 <= k < |ps|
        ensures ps[k].scale in {Day, Hour, Minute, Second}
      {
        PartShape(ps[k]);
      }
      WordsNoSpace(units, ps);
      SplitJoin(Words(units, ps));
      ParseWordsRoundTrip(units, ps);
    }
  }
}
