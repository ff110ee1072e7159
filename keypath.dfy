/** Rendering a key-path for the Key Path column:
    `".".join(str(e) for e in key_path) or "(root)"`
    (scripts/deploy/yaml_log.py:91). */
module KeyPathText {
  import opened Document

  const RootSentinel: string := "(root)"

  predicate IsDigit(c: char) {
    '0' <= c <= '9'
  }

  function DigitChar(d: nat): (c: char)
    requires d < 10
    ensures IsDigit(c) && c as int - '0' as int == d
  {
    ('0' as int + d) as char
  }

  /** `str(i)` for a sequence index: its decimal digits. */
  function Decimal(n: nat): (r: string)
    ensures |r| > 0
    ensures forall i :: 0 <= i < |r| ==> IsDigit(r[i])
    ensures r[0] == '0' ==> n == 0
  {
    if n < 10 then [DigitChar(n)] else Decimal(n / 10) + [DigitChar(n % 10)]
  }

  /** The number a string of decimal digits denotes. */
  function DecimalValue(s: string): nat
    requires forall i :: 0 <= i < |s| ==> IsDigit(s[i])
  {
    if s == [] then 0
    else
      assert IsDigit(s[|s| - 1]);
      10 * DecimalValue(s[..|s| - 1]) + (s[|s| - 1] as int - '0' as int)
  }

  lemma {:induction false} DecimalRoundTrip(n: nat)
    ensures DecimalValue(Decimal(n)) == n
  {
    if n >= 10 {
      DecimalRoundTrip(n / 10);
      var r := Decimal(n);
      assert r[..|r| - 1] == Decimal(n / 10);
    }
  }

  /** `str(e)` of one segment: a key as written, an index in decimal. */
  function SegmentText(g: Segment): string {
    match g
    case Key(k) => k
    case Index(i) => Decimal(i)
  }

  function Texts(path: KeyPath): (r: seq<string>)
    ensures |r| == |path|
    ensures forall i :: 0 <= i < |path| ==> r[i] == SegmentText(path[i])
  {
    if path == [] then [] else [SegmentText(path[0])] + Texts(path[1..])
  }

  /** `".".join(parts)` */
  function Join(parts: seq<string>): string {
    if parts == [] then ""
    else if |parts| == 1 then parts[0]
    else parts[0] + "." + Join(parts[1..])
  }

  /** `".".join(str(e) for e in path) or "(root)"` */
  function Render(path: KeyPath): string {
    var joined := Join(Texts(path));
    if joined == "" then RootSentinel else joined
  }

  /** The inverse of Join: `s.split(".")`. */
  function Split(s: string): (r: seq<string>)
    ensures |r| > 0
  {
    if s == [] then [""]
    else
      var rest := Split(s[1..]);
      if s[0] == '.' then [""] + rest else [[s[0]] + rest[0]] + rest[1..]
  }

  predicate NoDot(t: string) {
    forall i :: 0 <= i < |t| ==> t[i] != '.'
  }

  // ---------------------------------------------------------------------
  // Laws of rendering

  /** More than one part always leaves a '.' in the joined string. */
  lemma JoinHasDot(parts: seq<string>)
    requires |parts| >= 2
    ensures '.' in Join(parts)
  {
    assert Join(parts)[|parts[0]|] == '.';
  }

  /** The join is empty exactly for no parts or one empty part. */
  lemma JoinEmpty(parts: seq<string>)
    ensures Join(parts) == "" <==> parts == [] || parts == [""]
  {
    if |parts| >= 2 {
      JoinHasDot(parts);
    }
  }

  /** The sentinel appears exactly for the empty path, a path made of one
      empty key, and a path made of one key literally named "(root)". */
  lemma RenderIsSentinel(path: KeyPath)
    ensures Render(path) == RootSentinel <==>
            path == [] || path == [Key("")] || path == [Key(RootSentinel)]
  {
    var parts := Texts(path);
    JoinEmpty(parts);
    if |path| >= 2 {
      JoinHasDot(parts);
      assert forall i :: 0 <= i < |RootSentinel| ==> RootSentinel[i] != '.';
    } else if |path| == 1 {
      assert Join(parts) == SegmentText(path[0]);
      if path[0].Index? {
        var d := Decimal(path[0].pos);
        assert IsDigit(d[0]);
        assert d != [] && d != RootSentinel;
      }
    }
  }

  lemma {:induction false} SplitNoDot(a: string)
    requires NoDot(a)
    ensures Split(a) == [a]
  {
    if a != [] {
      SplitNoDot(a[1..]);
      assert [a[0]] + a[1..] == a;
    }
  }

  lemma {:induction false} SplitAtDot(a: string, b: string)
    requires NoDot(a)
    ensures Split(a + "." + b) == [a] + Split(b)
  {
    if a == [] {
      assert a + "." + b == "." + b;
      assert ("." + b)[1..] == b;
    } else {
      SplitAtDot(a[1..], b);
      assert (a + "." + b)[1..] == a[1..] + "." + b;
      assert [a[0]] + a[1..] == a;
    }
  }

  /** Splitting a join of dot-free parts gives the parts back. */
  lemma {:induction false} SplitJoin(parts: seq<string>)
    requires parts != []
    requires forall i :: 0 <= i < |parts| ==> NoDot(parts[i])
    ensures Split(Join(parts)) == parts
  {
    if |parts| == 1 {
      SplitNoDot(parts[0]);
    } else {
      SplitAtDot(parts[0], Join(parts[1..]));
      SplitJoin(parts[1..]);
    }
  }

  /** A rendered path that is not the sentinel determines the text of each
      of its segments, provided no key contains a '.'. */
  lemma RenderRoundTrip(path: KeyPath)
    requires forall i :: 0 <= i < |path| ==> path[i].Key? ==> NoDot(path[i].name)
    requires Join(Texts(path)) != ""
    ensures Split(Render(path)) == Texts(path)
  {
    var parts := Texts(path);
    forall i | 0 <= i < |parts|
      ensures NoDot(parts[i])
    {
      SegmentNoDot(path[i]);
    }
    SplitJoin(parts);
  }

  lemma SegmentNoDot(g: Segment)
    requires g.Key? ==> NoDot(g.name)
    ensures NoDot(SegmentText(g))
  {
    if g.Index? {
      var d := Decimal(g.pos);
      forall j | 0 <= j < |d|
        ensures d[j] != '.'
      {
        assert IsDigit(d[j]);
      }
    }
  }
}
