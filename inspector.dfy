/** How the pieces meet when a file is reported
    (scripts/deploy/yaml_log.py:87-92): the loaded document is normalised,
    flattened, and each entry's key-path rendered and value truncated. */
module Inspector {
  import opened Document
  import opened Flatten
  import opened KeyPathText
  import opened Truncate

  /** A scalar document yields exactly one row, keyed "(root)". */
  lemma ScalarRootRow(v: Value)
    requires !IsFalsy(Scalar(v))
    ensures var entries := Reverse(Leaves(Normalize(Scalar(v)), []));
            |entries| == 1 && entries[0] == ([], v) && Render(entries[0].0) == RootSentinel
  {
    assert Reverse(Leaves(Scalar(v), [])) == [([], v)];
  }

  /** A falsy scalar document (null, false, 0, "") yields no rows at all,
      although flattening it unnormalised would yield one. */
  lemma FalsyScalarRoot(v: Value)
    requires IsFalsy(Scalar(v))
    ensures Reverse(Leaves(Normalize(Scalar(v)), [])) == []
    ensures |Reverse(Leaves(Scalar(v), []))| == 1
  {
  }

  /** name: "🚀rocket-service", replicas: 3, tags: [a, b] */
  const AppDocument: Node :=
    Map([Field("name", Scalar(Str("🚀rocket-service"))),
         Field("replicas", Scalar(Int(3))),
         Field("tags", List([Scalar(Str("a")), Scalar(Str("b"))]))])

  /** The example's name value fits the 60-column cell and is shown whole
      whenever no character is wider than two columns. */
  lemma AppNameCell(w: char -> nat)
    requires forall c :: w(c) <= 2
    ensures Truncated(w, "🚀rocket-service", MaxValueWidth) == "🚀rocket-service"
  {
    WidthAtMost(w, "🚀rocket-service", 2);
  }

  /** `str(value)` of a scalar: Python's spelling of None and the booleans,
      an integer in decimal with a leading '-' when negative, a string as it
      is, and the recorded text of any other scalar. */
  function ValueText(v: Value): string
  {
    match v
    case Null => "None"
    case Bool(b) => if b then "True" else "False"
    case Int(i) => if i < 0 then "-" + Decimal(-i) else Decimal(i)
    case Str(s) => s
    case Other(_, text, _) => text
  }

  /** The Key Path and Value cells of the row for one entry. */
  function Cells(w: char -> nat, e: Entry): (string, string)
  {
    (Render(e.0), Truncated(w, ValueText(e.1), MaxValueWidth))
  }

  /** The Key Path and Value cells of every row `tabulate_file` builds for a
      loaded document, in the order `flatten` yields the entries. */
  function Rows(w: char -> nat, doc: Node): seq<(string, string)>
  {
    var entries := Reverse(Leaves(Normalize(doc), []));
    seq(|entries|, i requires 0 <= i < |entries| => Cells(w, entries[i]))
  }

  /** Every row's Key Path cell is non-empty and reads "(root)" only for the
      sentinel paths; its Value cell is `str(value)` when that fits 60
      columns, and otherwise a prefix of it plus "..." within 60 columns. */
  lemma RowCells(w: char -> nat, e: Entry)
    requires w('.') == 1
    ensures Cells(w, e).0 != ""
    ensures Cells(w, e).0 == RootSentinel <==>
            e.0 == [] || e.0 == [Key("")] || e.0 == [Key(RootSentinel)]
    ensures Width(w, Cells(w, e).1) <= MaxValueWidth
    ensures Width(w, ValueText(e.1)) <= MaxValueWidth ==> Cells(w, e).1 == ValueText(e.1)
    ensures Width(w, ValueText(e.1)) > MaxValueWidth ==>
              exists n :: 0 <= n < |ValueText(e.1)| &&
                Cells(w, e).1 == ValueText(e.1)[..n] + Ellipsis
  {
    RenderIsSentinel(e.0);
    TruncateBudget(w, ValueText(e.1), MaxValueWidth);
    var t := ValueText(e.1);
    if Width(w, t) > MaxValueWidth {
      assert t != "";
      TruncateClipped(w, t, MaxValueWidth);
    }
  }

  /** A loaded document gets one row per scalar leaf, none at all when it
      is falsy, and every row's cells obey RowCells. */
  lemma DocumentRows(w: char -> nat, doc: Node)
    requires w('.') == 1
    ensures |Rows(w, doc)| == LeafCount(Normalize(doc))
    ensures IsFalsy(doc) ==> Rows(w, doc) == []
    ensures forall i :: 0 <= i < |Rows(w, doc)| ==>
              Rows(w, doc)[i].0 != "" && Width(w, Rows(w, doc)[i].1) <= MaxValueWidth
  {
    var entries := Reverse(Leaves(Normalize(doc), []));
    LeavesCount(Normalize(doc), []);
    forall i | 0 <= i < |entries|
      ensures Rows(w, doc)[i].0 != "" && Width(w, Rows(w, doc)[i].1) <= MaxValueWidth
    {
      RowCells(w, entries[i]);
    }
  }

  /** The integer cell text denotes the integer again. */
  lemma IntTextRoundTrip(i: int)
    ensures var t := ValueText(Int(i));
            if i < 0 then t[0] == '-' && DecimalValue(t[1..]) == -i
            else DecimalValue(t) == i
  {
    if i < 0 {
      DecimalRoundTrip(-i);
      assert ("-" + Decimal(-i))[1..] == Decimal(-i);
    } else {
      DecimalRoundTrip(i);
    }
  }

  /** Four entries, in the order the stack yields them: the last item's
      subtree first, and within it the last element first. */
  lemma AppDocumentEntries()
    ensures Reverse(Leaves(Normalize(AppDocument), [])) ==
            [([Key("tags"), Index(1)], Str("b")),
             ([Key("tags"), Index(0)], Str("a")),
             ([Key("replicas")], Int(3)),
             ([Key("name")], Str("🚀rocket-service"))]
    ensures Render([Key("tags"), Index(1)]) == "tags.1"
    ensures Render([Key("tags"), Index(0)]) == "tags.0"
  {
    var doc := AppDocumentLeaves();
    ReverseAt(doc, 0);
    ReverseAt(doc, 1);
    ReverseAt(doc, 2);
    ReverseAt(doc, 3);
    assert Decimal(1) == "1" && Decimal(0) == "0";
  }

  /** The same document in document order. */
  lemma AppDocumentLeaves() returns (doc: seq<Entry>)
    ensures doc == Leaves(AppDocument, [])
    ensures doc == [([Key("name")], Str("🚀rocket-service")),
                    ([Key("replicas")], Int(3)),
                    ([Key("tags"), Index(0)], Str("a")),
                    ([Key("tags"), Index(1)], Str("b"))]
  {
    var fs := AppDocument.fields;
    var name, replicas := ([Key("name")], Str("🚀rocket-service")), ([Key("replicas")], Int(3));
    var tags := TagsLeaves();
    assert [] + [Key("name")] == name.0 && [] + [Key("replicas")] == replicas.0;
    assert fs[..2][..1] == fs[..1] && fs[..1][..0] == [];
    assert FieldLeaves(fs[..1], []) == [name];
    assert FieldLeaves(fs[..2], []) == [name, replicas];
    assert fs[..3] == fs;
    doc := [name, replicas] + tags;
  }

  lemma TagsLeaves() returns (leaves: seq<Entry>)
    ensures leaves == Leaves(List([Scalar(Str("a")), Scalar(Str("b"))]), [] + [Key("tags")])
    ensures leaves == [([Key("tags"), Index(0)], Str("a")), ([Key("tags"), Index(1)], Str("b"))]
  {
    var tags := [Scalar(Str("a")), Scalar(Str("b"))];
    var pt := [Key("tags")];
    assert [] + [Key("tags")] == pt;
    var a, b := ([Key("tags"), Index(0)], Str("a")), ([Key("tags"), Index(1)], Str("b"));
    assert tags[..1] == [tags[0]] && tags[..1][..0] == [];
    assert pt + [Index(0)] == a.0 && pt + [Index(1)] == b.0;
    assert ItemLeaves(tags[..1], pt) == [a];
    leaves := [a, b];
  }
}
