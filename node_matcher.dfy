/**
 * The node matcher handed to the graph edit distance
 * (`RFmodeller.check_node_label_equality`). A node label is the graphviz text
 * that scikit-learn's exporter writes, whose lines are separated by the two
 * characters `\n`; the matcher splits on the backslash, so a leaf label
 * `gini = 0.0\nsamples = 3\nvalue = [0, 3, 0]` has three segments and a split
 * label `petal width (cm) <= 0.8\ngini = ...\nsamples = ...\nvalue = [...]`
 * has four.
 */
module NodeMatcher {
  import opened Wrappers
  import opened Text
  import opened Decimal

  const Backslash: char := '\\'
  const ThresholdMarker: string := " <= "
  const ValueMarker: string := " = "

  /** What the matcher raises: the leaf's value list could not be read, or an unknown segment count. */
  datatype LabelError = MalformedLeaf | UnexpectedSegmentCount(count: nat)

  /**
   * A label decoded once: a leaf knows its class values (`None` when they cannot
   * be read), a split node its feature, anything else only its segment count.
   */
  datatype NodeLabel =
    | Leaf(classValues: Option<seq<nat>>)
    | SplitNode(feature: string)
    | Other(segmentCount: nat)

  /** First index of the maximum, as `np.argmax` returns it. */
  function ArgMax(vs: seq<nat>): (r: nat)
    requires |vs| > 0
    ensures r < |vs|
    ensures forall j :: 0 <= j < |vs| ==> vs[j] <= vs[r]
    ensures forall j :: 0 <= j < r ==> vs[j] < vs[r]
  {
    if |vs| == 1 then 0
    else
      var k := ArgMax(vs[..|vs| - 1]);
      if vs[|vs| - 1] > vs[k] then |vs| - 1 else k
  }

  function TrimLeft(s: string): string
  {
    if s != [] && s[0] == ' ' then TrimLeft(s[1..]) else s
  }

  function TrimRight(s: string): string
  {
    if s != [] && s[|s| - 1] == ' ' then TrimRight(s[..|s| - 1]) else s
  }

  /** Surrounding blanks, which the list reader ignores. */
  function TrimSpaces(s: string): string
  {
    TrimRight(TrimLeft(s))
  }

  /**
   * A decimal integer literal in Python's syntax, without sign or underscores:
   * digits with no leading zero, unless every digit is zero.
   */
  predicate IntLiteral(s: string)
  {
    |s| >= 1 && AllDigits(s) && (s[0] != '0' || forall k :: 0 <= k < |s| ==> s[k] == '0')
  }

  /** One list item as `literal_eval` reads it; `None` where it raises. */
  function ParseLiteralNat(s: string): (r: Option<nat>)
    ensures r.Some? <==> IntLiteral(s)
    ensures r.Some? ==> r == ParseNat(s)
  {
    if IntLiteral(s) then ParseNat(s) else None
  }

  /** `str(n)` is a literal `literal_eval` accepts. */
  lemma NatToStringIsLiteral(n: nat)
    ensures IntLiteral(NatToString(n))
  {
    if n >= 10 {
      FirstCharIsLeadingDigit(n);
    }
  }

  /** `007` is no Python literal: the reader refuses a leading zero. */
  lemma LeadingZeroRefused()
    ensures ParseLiteralNat("007") == None
    ensures ParseLiteralNat("0") == Some(0) && ParseLiteralNat("00") == Some(0)
  {
    assert "007"[0] == '0' && "007"[2] != '0';
    assert ParseNat("0") == Some(0);
    assert ParseNat("00") == Some(DigitsValue("00"));
    assert "00"[..1] == "0";
  }

  /** A list with a zero-padded item is refused, as `literal_eval` raises on it. */
  lemma PaddedListRefused()
    ensures ParseValueList("[007, 1]") == None
  {
    var inner := "007, 1";
    assert "[007, 1]"[1..7] == inner;
    assert Split(inner, ',')[0] == "007" by {
      SplitPrefix("007", " 1", ',');
      assert inner == "007" + [','] + " 1";
    }
    assert TrimSpaces("007") == "007";
    LeadingZeroRefused();
  }

  /** Each comma-separated item read as a non-negative integer literal. */
  function ParseItems(items: seq<string>): (r: Option<seq<nat>>)
    ensures r.Some? ==> |r.value| == |items|
  {
    if items == [] then Some([])
    else
      match (ParseLiteralNat(TrimSpaces(items[0])), ParseItems(items[1..]))
      case (Some(v), Some(vs)) => Some([v] + vs)
      case _ => None
  }

  /**
   * `ast.literal_eval` restricted to what the exporter writes for `value`: a
   * bracketed, comma-separated list of non-negative integers.
   */
  function ParseValueList(s: string): Option<seq<nat>>
  {
    if |s| >= 2 && s[0] == '[' && s[|s| - 1] == ']' then
      var inner := s[1..|s| - 1];
      if TrimSpaces(inner) == "" then Some([]) else ParseItems(Split(inner, ','))
    else None
  }

  /** The items as the exporter prints them, before the commas: `"3"`, `" 0"`, `" 12"`. */
  function ValuePieces(vs: seq<nat>): (r: seq<string>)
    ensures |r| == |vs|
  {
    seq(|vs|, i requires 0 <= i < |vs| => (if i == 0 then "" else " ") + NatToString(vs[i]))
  }

  /** The exporter's text for a class-value list: `[0, 3, 0]`. */
  function FormatValueList(vs: seq<nat>): string
  {
    if vs == [] then "[]" else "[" + Join(ValuePieces(vs), ',') + "]"
  }

  /** The value list of a leaf segment `key = [..]`; `None` where the matcher raises reading it. */
  function ReadValues(segment: string): Option<seq<nat>>
  {
    match FieldAfterFirst(segment, ValueMarker)
    case None => None
    case Some(field) => ParseValueList(field)
  }

  /** The class index a leaf segment predicts; `None` where the matcher raises. */
  function LeafMajorityClass(segment: string): Option<nat>
  {
    Majority(ReadValues(segment))
  }

  /** Decodes a label by its number of backslash-separated segments. */
  function DecodeLabel(text: string): (r: NodeLabel)
    ensures SegmentCount(r) == |Split(text, Backslash)|
  {
    var segments := Split(text, Backslash);
    if |segments| == 3 then
      Leaf(ReadValues(segments[2]))
    else if |segments| == 4 then SplitNode(BeforeFirst(segments[0], ThresholdMarker))
    else Other(|segments|)
  }

  function SegmentCount(l: NodeLabel): nat
  {
    match l
    case Leaf(_) => 3
    case SplitNode(_) => 4
    case Other(n) => n
  }

  /** The majority class of a decoded leaf, when its values can be read and are not empty. */
  function Majority(values: Option<seq<nat>>): (r: Option<nat>)
    ensures r.Some? <==> values.Some? && values.value != []
    ensures r.Some? ==> (r.value < |values.value|
      && forall j :: 0 <= j < |values.value| ==> values.value[j] <= values.value[r.value])
  {
    match values
    case Some(vs) => if vs == [] then None else Some(ArgMax(vs))
    case None => None
  }

  /** The decision between two decoded labels. */
  function MatchLabels(a: NodeLabel, b: NodeLabel): Result<bool, LabelError>
  {
    if SegmentCount(a) != SegmentCount(b) then Success(false)
    else
      match (a, b)
      case (Leaf(va), Leaf(vb)) =>
        (match (Majority(va), Majority(vb))
         case (Some(ma), Some(mb)) => Success(ma == mb)
         case _ => Failure(MalformedLeaf))
      case (SplitNode(fa), SplitNode(fb)) => Success(fa == fb)
      case _ => Failure(UnexpectedSegmentCount(SegmentCount(a)))
  }

  /**
   * `check_node_label_equality`: different segment counts never match; two
   * leaves match iff they predict the same class; two split nodes match iff
   * their features (the text before the first ` <= `) agree; any other count
   * raises.
   */
  function CheckNodeLabelEquality(label1: string, label2: string): (r: Result<bool, LabelError>)
    ensures var s1, s2 := Split(label1, Backslash), Split(label2, Backslash);
      && (|s1| != |s2| ==> r == Success(false))
      && (|s1| == |s2| && |s1| != 3 && |s1| != 4 ==> r == Failure(UnexpectedSegmentCount(|s1|)))
      && (|s1| == |s2| == 4 ==>
            r == Success(BeforeFirst(s1[0], ThresholdMarker) == BeforeFirst(s2[0], ThresholdMarker)))
      && (|s1| == |s2| == 3 ==>
            r == match (LeafMajorityClass(s1[2]), LeafMajorityClass(s2[2]))
                 case (Some(m1), Some(m2)) => Success(m1 == m2)
                 case _ => Failure(MalformedLeaf))
  {
    MatchLabels(DecodeLabel(label1), DecodeLabel(label2))
  }

  /** The matcher does not depend on the order of its arguments, errors included. */
  lemma MatcherSymmetric(label1: string, label2: string)
    ensures CheckNodeLabelEquality(label1, label2) == CheckNodeLabelEquality(label2, label1)
  {
  }

  // ---- reading back what the exporter writes ----

  lemma TrimOfDigits(s: string)
    requires |s| >= 1 && AllDigits(s)
    ensures TrimSpaces(s) == s && TrimSpaces(" " + s) == s
  {
    assert (" " + s)[1..] == s;
  }

  lemma {:induction false} ParseItemsOf(items: seq<string>, vs: seq<nat>)
    requires |items| == |vs|
    requires forall i :: 0 <= i < |items| ==> ParseLiteralNat(TrimSpaces(items[i])) == Some(vs[i])
    ensures ParseItems(items) == Some(vs)
  {
    if items != [] {
      ParseItemsOf(items[1..], vs[1..]);
      assert [vs[0]] + vs[1..] == vs;
    }
  }

  lemma ValuePiecesCommaFree(vs: seq<nat>)
    ensures forall i :: 0 <= i < |vs| ==> ',' !in ValuePieces(vs)[i]
  {
    forall i | 0 <= i < |vs| ensures ',' !in ValuePieces(vs)[i] {
      var d := NatToString(vs[i]);
      assert forall k :: 0 <= k < |d| ==> d[k] != ',';
    }
  }

  /** Reading back a printed class-value list gives the list. */
  lemma ParseFormatValueList(vs: seq<nat>)
    ensures ParseValueList(FormatValueList(vs)) == Some(vs)
  {
    var s := FormatValueList(vs);
    if vs != [] {
      var pieces := ValuePieces(vs);
      assert s[1..|s| - 1] == Join(pieces, ',');
      ValuePiecesCommaFree(vs);
      SplitJoin(pieces, ',');
      forall i | 0 <= i < |pieces| ensures ParseLiteralNat(TrimSpaces(pieces[i])) == Some(vs[i]) {
        var d := NatToString(vs[i]);
        TrimOfDigits(d);
        if i == 0 { assert pieces[i] == d; } else { assert pieces[i] == " " + d; }
        ParseNatToString(vs[i]);
        NatToStringIsLiteral(vs[i]);
      }
      JoinNonBlank(pieces, ',');
      ParseItemsOf(pieces, vs);
    }
  }

  /** A join whose first part is a number does not trim to nothing. */
  lemma JoinNonBlank(pieces: seq<string>, sep: char)
    requires |pieces| >= 1 && |pieces[0]| >= 1 && pieces[0][0] != ' '
    ensures TrimSpaces(Join(pieces, sep)) != ""
  {
    var j := Join(pieces, sep);
    assert j[0] == pieces[0][0];
    assert TrimLeft(j) == j;
    TrimRightNonEmpty(j);
  }

  lemma {:induction false} TrimRightNonEmpty(s: string)
    requires |s| >= 1 && s[0] != ' '
    ensures TrimRight(s) != ""
  {
    if s[|s| - 1] == ' ' {
      TrimRightNonEmpty(s[..|s| - 1]);
    }
  }

  /** The characters a printed value list is made of. */
  predicate ListChar(c: char) { IsDigit(c) || c == ',' || c == ' ' || c == '[' || c == ']' }

  lemma {:induction false} JoinChars(parts: seq<string>, sep: char)
    requires |parts| >= 1 && ListChar(sep)
    requires forall i, k :: 0 <= i < |parts| && 0 <= k < |parts[i]| ==> ListChar(parts[i][k])
    ensures forall k :: 0 <= k < |Join(parts, sep)| ==> ListChar(Join(parts, sep)[k])
  {
    if |parts| > 1 {
      forall i, k | 0 <= i < |parts[1..]| && 0 <= k < |parts[1..][i]| ensures ListChar(parts[1..][i][k]) {
        assert parts[1..][i] == parts[i + 1];
      }
      JoinChars(parts[1..], sep);
      var j := Join(parts, sep);
      assert j == parts[0] + [sep] + Join(parts[1..], sep);
      forall k | 0 <= k < |j| ensures ListChar(j[k]) {
        if k < |parts[0]| { assert j[k] == parts[0][k]; }
        else if k > |parts[0]| { assert j[k] == Join(parts[1..], sep)[k - |parts[0]| - 1]; }
      }
    }
  }

  lemma FormatValueListChars(vs: seq<nat>)
    ensures '=' !in FormatValueList(vs) && Backslash !in FormatValueList(vs)
  {
    var s := FormatValueList(vs);
    if vs != [] {
      var pieces := ValuePieces(vs);
      forall i, k | 0 <= i < |pieces| && 0 <= k < |pieces[i]| ensures ListChar(pieces[i][k]) {
        var d := NatToString(vs[i]);
        if i == 0 { assert pieces[i] == d; } else { assert pieces[i] == " " + d; }
      }
      JoinChars(pieces, ',');
      var j := Join(pieces, ',');
      assert s == "[" + j + "]";
      forall k | 0 <= k < |s| ensures ListChar(s[k]) {
        if 0 < k < |s| - 1 { assert s[k] == j[k - 1]; }
      }
    }
    assert forall k :: 0 <= k < |s| ==> ListChar(s[k]);
  }

  // ---- the two kinds of label, as the exporter writes them ----

  /** A leaf label: three segments, the last one `key = [..]`. */
  function LeafText(first: string, second: string, key: string, vs: seq<nat>): string
  {
    Join([first, second, key + ValueMarker + FormatValueList(vs)], Backslash)
  }

  /** A split label: the condition `feature <= threshold`, then three more segments. */
  function SplitText(feature: string, threshold: string, rest: seq<string>): string
    requires |rest| == 3
  {
    Join([feature + ThresholdMarker + threshold] + rest, Backslash)
  }

  /** Two leaves are matched on the index of their largest class count, and on nothing else. */
  lemma LeafLabelsMatchOnMajority(first1: string, second1: string, key1: string, vs1: seq<nat>,
                                  first2: string, second2: string, key2: string, vs2: seq<nat>)
    requires Backslash !in first1 && Backslash !in second1 && Backslash !in key1 && '=' !in key1
    requires Backslash !in first2 && Backslash !in second2 && Backslash !in key2 && '=' !in key2
    requires |vs1| > 0 && |vs2| > 0
    ensures CheckNodeLabelEquality(LeafText(first1, second1, key1, vs1), LeafText(first2, second2, key2, vs2))
         == Success(ArgMax(vs1) == ArgMax(vs2))
  {
    LeafSegments(first1, second1, key1, vs1);
    LeafSegments(first2, second2, key2, vs2);
  }

  lemma LeafSegments(first: string, second: string, key: string, vs: seq<nat>)
    requires Backslash !in first && Backslash !in second && Backslash !in key && '=' !in key
    requires |vs| > 0
    ensures var s := Split(LeafText(first, second, key, vs), Backslash);
      |s| == 3 && LeafMajorityClass(s[2]) == Some(ArgMax(vs))
  {
    var last := key + ValueMarker + FormatValueList(vs);
    FormatValueListChars(vs);
    assert Backslash !in last;
    SplitJoin([first, second, last], Backslash);
    FieldAfterMarker(key, ValueMarker, FormatValueList(vs), '=');
    ParseFormatValueList(vs);
  }

  /** Two split nodes on the same feature match whatever their thresholds and other lines. */
  lemma SplitLabelsIgnoreThreshold(feature: string, threshold1: string, threshold2: string,
                                   rest1: seq<string>, rest2: seq<string>)
    requires '<' !in feature && Backslash !in feature
    requires Backslash !in threshold1 && Backslash !in threshold2
    requires |rest1| == 3 && |rest2| == 3
    requires forall i :: 0 <= i < 3 ==> Backslash !in rest1[i] && Backslash !in rest2[i]
    ensures CheckNodeLabelEquality(SplitText(feature, threshold1, rest1), SplitText(feature, threshold2, rest2))
         == Success(true)
  {
    SplitSegments(feature, threshold1, rest1);
    SplitSegments(feature, threshold2, rest2);
  }

  lemma SplitSegments(feature: string, threshold: string, rest: seq<string>)
    requires '<' !in feature && Backslash !in feature && Backslash !in threshold
    requires |rest| == 3 && forall i :: 0 <= i < 3 ==> Backslash !in rest[i]
    ensures var s := Split(SplitText(feature, threshold, rest), Backslash);
      |s| == 4 && BeforeFirst(s[0], ThresholdMarker) == feature
  {
    var cond := feature + ThresholdMarker + threshold;
    var parts := [cond] + rest;
    forall i | 0 <= i < |parts| ensures Backslash !in parts[i] {
      if i > 0 { assert parts[i] == rest[i - 1]; }
    }
    SplitJoin(parts, Backslash);
    assert cond[|feature|..|feature| + 4] == ThresholdMarker;
    assert OccursAt(cond, ThresholdMarker, |feature|);
    forall k: nat | k < |feature| ensures !OccursAt(cond, ThresholdMarker, k) {
      if k + 4 <= |cond| {
        assert cond[k..k + 4][1] == cond[k + 1];
        if k + 1 < |feature| { assert cond[k + 1] == feature[k + 1]; }
        else { assert cond[k + 1] == ' '; }
      }
    }
    assert FindFrom(cond, ThresholdMarker, 0) == Some(|feature|);
  }
}
