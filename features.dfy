/** Feature encoding of paginated nodes and the raw dot-product score that
    the similarity matcher thresholds. */
module Features {
  import opened JsPrims
  import opened Structure

  const XNorm: real := 1000.0
  const FontNorm: real := 100.0
  const LenNorm: real := 500.0
  const SimilarityThreshold: real := 0.985

  function Min(a: real, b: real): real {
    if a <= b then a else b
  }

  /** The 4-entry feature vector of a node: scaled x, scaled font size, a
      leading-digit flag over the trimmed text and the capped, scaled UTF-16
      length of the untrimmed text. */
  function Encode(n: PdfNode): (f: seq<real>)
    ensures |f| == 4
    ensures f[0] * XNorm == n.x && f[1] * FontNorm == n.fontSize
    ensures (f[2] == 1.0 <==> StartsWithDigit(Trim(n.text))) && (f[2] == 0.0 || f[2] == 1.0)
    ensures 0.0 <= f[3] <= 1.0
    ensures f[3] == 1.0 <==> Utf16Length(n.text) >= 500
    ensures f[3] < 1.0 ==> f[3] * LenNorm == Utf16Length(n.text) as real
  {
    [ n.x / XNorm,
      n.fontSize / FontNorm,
      if StartsWithDigit(Trim(n.text)) then 1.0 else 0.0,
      Min(Utf16Length(n.text) as real / LenNorm, 1.0) ]
  }

  /** The leading-digit entry, stated over the untrimmed text: it is 1
      exactly when the first character that is not whitespace is an ASCII
      digit, and 0 otherwise. */
  lemma DigitFlagOfText(n: PdfNode)
    ensures Encode(n)[2] == 1.0 <==> exists k :: DigitFirstAt(n.text, k)
  {
    TrimmedStartsWithDigit(n.text);
  }

  /** `nodes.map(...)`: the feature matrix. It has one row of width 4 per
      node; column 0 is the node's x and column 1 its font size, both scaled;
      column 2 is a 0/1 flag, set exactly for texts whose trimmed form starts
      with a digit; column 3 is the UTF-16 length over 500, capped at 1. */
  function EncodeAll(nodes: seq<PdfNode>): (m: seq<seq<real>>)
    ensures IsFeatureMatrix(m, |nodes|)
    ensures forall i :: 0 <= i < |m| ==> m[i][0] * XNorm == nodes[i].x && m[i][1] * FontNorm == nodes[i].fontSize
    ensures forall i :: 0 <= i < |m| ==>
      (m[i][2] == 0.0 || m[i][2] == 1.0) && (m[i][2] == 1.0 <==> StartsWithDigit(Trim(nodes[i].text)))
    ensures forall i :: 0 <= i < |m| ==>
      && 0.0 <= m[i][3] <= 1.0
      && (m[i][3] == 1.0 <==> Utf16Length(nodes[i].text) >= 500)
      && (m[i][3] < 1.0 ==> m[i][3] * LenNorm == Utf16Length(nodes[i].text) as real)
  {
    seq(|nodes|, i requires 0 <= i < |nodes| => Encode(nodes[i]))
  }

  /** A feature matrix of `rows` rows, each of width 4. */
  predicate IsFeatureMatrix(features: seq<seq<real>>, rows: nat) {
    |features| == rows && forall i :: 0 <= i < |features| ==> |features[i]| == 4
  }

  function Dot(a: seq<real>, b: seq<real>): real
    requires |a| == |b|
  {
    if |a| == 0 then 0.0 else a[0] * b[0] + Dot(a[1..], b[1..])
  }

  /** The raw score is symmetric in its two vectors (see
      `Matching.RawMatchSymmetric`). */
  lemma {:induction false} DotSymmetric(a: seq<real>, b: seq<real>)
    requires |a| == |b|
    ensures Dot(a, b) == Dot(b, a)
  {
    if |a| > 0 {
      DotSymmetric(a[1..], b[1..]);
    }
  }

  /** A score between two rows of width 4, written out. */
  lemma DotOfWidthFour(a: seq<real>, b: seq<real>)
    requires |a| == 4 && |b| == 4
    ensures Dot(a, b) == a[0] * b[0] + a[1] * b[1] + a[2] * b[2] + a[3] * b[3]
  {
    var a1, b1 := a[1..], b[1..];
    var a2, b2 := a1[1..], b1[1..];
    var a3, b3 := a2[1..], b2[1..];
    assert a3[1..] == [] && b3[1..] == [];
    assert a3 == [a[3]] && b3 == [b[3]];
    assert a2[0] == a[2] && b2[0] == b[2];
    assert a1[0] == a[1] && b1[0] == b[1];
    assert Dot(a3, b3) == a[3] * b[3];
    assert Dot(a2, b2) == a[2] * b[2] + Dot(a3, b3);
    assert Dot(a1, b1) == a[1] * b[1] + Dot(a2, b2);
    assert Dot(a, b) == a[0] * b[0] + Dot(a1, b1);
  }

  /** `matMul(seedFeature.transpose())`: one score per node, the sum of the
      products of the node's four features with the seed's. */
  function Scores(features: seq<seq<real>>, seed: nat): (s: seq<real>)
    requires seed < |features| && IsFeatureMatrix(features, |features|)
    ensures |s| == |features|
    ensures forall i :: 0 <= i < |s| ==>
      s[i] == features[i][0] * features[seed][0] + features[i][1] * features[seed][1]
            + features[i][2] * features[seed][2] + features[i][3] * features[seed][3]
  {
    assert forall i :: 0 <= i < |features| ==>
      Dot(features[i], features[seed]) == features[i][0] * features[seed][0] + features[i][1] * features[seed][1]
            + features[i][2] * features[seed][2] + features[i][3] * features[seed][3]
    by {
      forall i | 0 <= i < |features| {
        DotOfWidthFour(features[i], features[seed]);
      }
    }
    seq(|features|, i requires 0 <= i < |features| => Dot(features[i], features[seed]))
  }

  /** Every entry of `a` multiplied by `c`. */
  function Scale(c: real, a: seq<real>): (r: seq<real>)
    ensures |r| == |a| && forall i :: 0 <= i < |a| ==> r[i] == c * a[i]
  {
    if |a| == 0 then [] else [c * a[0]] + Scale(c, a[1..])
  }

  /** Scaling a vector scales its score against any other vector by the
      same factor: the raw dot product is not normalised the way a cosine
      similarity is. */
  lemma {:induction false} DotScales(c: real, a: seq<real>, b: seq<real>)
    requires |a| == |b|
    ensures Dot(Scale(c, a), b) == c * Dot(a, b)
  {
    if |a| > 0 {
      DotScales(c, a[1..], b[1..]);
      assert Scale(c, a)[1..] == Scale(c, a[1..]);
    }
  }

  /** The seed need not match itself: a one-letter text run at x = 100 with
      a 10-unit font has a self-score of about 0.02, far below the
      threshold. */
  lemma SeedNeedNotMatchItself()
    ensures var n := PdfNode(PdfId(1, 0), 100.0, 120.0, 10.0, "a", 1);
      Dot(Encode(n), Encode(n)) < SimilarityThreshold
  {
    var n := PdfNode(PdfId(1, 0), 100.0, 120.0, 10.0, "a", 1);
    assert TrimStart("a") == "a";
    assert TrimEnd("a") == "a";
    assert !StartsWithDigit(Trim("a"));
    assert Utf16Length("a") == 1;
    var f := Encode(n);
    assert f == [0.1, 0.1, 0.0, 0.002];
    DotOfWidthFour(f, f);
  }
}
