/**
 Texts made of fields of one width: joining encoded values and splitting a text back into values.
 */
module Fields {
  import opened Hex

  /** The length of `k` fields of width `w`: the product of the two, written as a sum. */
  function Length(k: nat, w: nat): nat {
    if k == 0 then 0 else Length(k - 1, w) + w
  }

  lemma {:induction false} LengthIsProduct(k: nat, w: nat)
    ensures Length(k, w) == k * w
  {
    if k > 0 {
      LengthIsProduct(k - 1, w);
      assert (k - 1) * w + w == k * w;
    }
  }

  function Join<T>(vals: seq<T>, enc: T -> string): string {
    if |vals| == 0 then "" else Join(vals[..|vals| - 1], enc) + enc(vals[|vals| - 1])
  }

  function Split<T>(text: string, k: nat, w: nat, dec: string -> T): (vals: seq<T>)
    requires |text| == Length(k, w)
    ensures |vals| == k
    decreases k
  {
    if k == 0 then []
    else
      var cut := |text| - w;
      Split(text[..cut], k - 1, w, dec) + [dec(text[cut..])]
  }

  lemma JoinExtends<T>(vals: seq<T>, v: T, enc: T -> string)
    ensures Join(vals + [v], enc) == Join(vals, enc) + enc(v)
  {
    assert (vals + [v])[..|vals|] == vals;
  }

  lemma SplitExtends<T>(head: string, field: string, k: nat, w: nat, dec: string -> T)
    requires |head| == Length(k, w) && |field| == w
    ensures Split(head + field, k + 1, w, dec) == Split(head, k, w, dec) + [dec(field)]
  {
    var text := head + field;
    assert text[..|head|] == head && text[|head|..] == field;
  }

  /** Decoding a field and encoding it again gives the field in lower case. */
  ghost predicate Restores<T>(f: string, enc: T -> string, dec: string -> T) {
    enc(dec(f)) == Lower(f)
  }

  lemma AllHexParts(a: string, b: string)
    ensures AllHex(a + b) <==> AllHex(a) && AllHex(b)
  {
    assert forall i :: 0 <= i < |b| ==> (a + b)[|a| + i] == b[i];
    assert forall i :: 0 <= i < |a| ==> (a + b)[i] == a[i];
  }

  /** If each field comes back in lower case, so does the text. */
  lemma {:induction false} JoinOfSplit<T>(text: string, k: nat, w: nat, enc: T -> string, dec: string -> T)
    requires |text| == Length(k, w) && AllHex(text)
    requires forall f {:trigger Restores(f, enc, dec)} :: |f| == w && AllHex(f) ==> Restores(f, enc, dec)
    ensures Join(Split(text, k, w, dec), enc) == Lower(text)
    decreases k
  {
    if k > 0 {
      var cut := |text| - w;
      var head, field := text[..cut], text[cut..];
      assert head + field == text;
      AllHexParts(head, field);
      assert Restores(field, enc, dec);
      JoinOfSplit(head, k - 1, w, enc, dec);
      FieldFollows(head, field, k - 1, w, enc, dec);
    }
  }

  lemma FieldFollows<T>(head: string, field: string, k: nat, w: nat, enc: T -> string, dec: string -> T)
    requires |head| == Length(k, w) && |field| == w && Restores(field, enc, dec)
    requires Join(Split(head, k, w, dec), enc) == Lower(head)
    ensures Join(Split(head + field, k + 1, w, dec), enc) == Lower(head + field)
  {
    SplitExtends(head, field, k, w, dec);
    JoinExtends(Split(head, k, w, dec), dec(field), enc);
    LowerConcat(head, field);
  }

  lemma {:induction false} SplitOfJoin<T>(vals: seq<T>, w: nat, enc: T -> string, dec: string -> T)
    requires forall i :: 0 <= i < |vals| ==> |enc(vals[i])| == w && dec(enc(vals[i])) == vals[i]
    ensures |Join(vals, enc)| == Length(|vals|, w)
    ensures Split(Join(vals, enc), |vals|, w, dec) == vals
    decreases |vals|
  {
    if |vals| > 0 {
      var k := |vals| - 1;
      assert vals == vals[..k] + [vals[k]];
      SplitOfJoin(vals[..k], w, enc, dec);
      SplitExtends(Join(vals[..k], enc), enc(vals[k]), k, w, dec);
    }
  }

  /** Field `i` of a split text. */
  lemma {:induction false} SplitAt<T>(text: string, k: nat, w: nat, dec: string -> T, i: nat)
    requires |text| == Length(k, w) && i < k
    ensures Length(i + 1, w) <= |text| && Split(text, k, w, dec)[i] == dec(text[Length(i, w)..Length(i + 1, w)])
    decreases k
  {
    var cut, lo, hi := |text| - w, Length(i, w), Length(i + 1, w);
    var head := text[..cut];
    assert Split(text, k, w, dec) == Split(head, k - 1, w, dec) + [dec(text[cut..])];
    if i < k - 1 {
      SplitAt(head, k - 1, w, dec, i);
      assert head[lo..hi] == text[lo..hi];
    } else {
      assert lo == cut && hi == |text|;
      assert text[lo..hi] == text[cut..];
    }
  }

  /** Field `i` of a joined text. */
  lemma {:induction false} JoinAt<T>(vals: seq<T>, w: nat, enc: T -> string, i: nat)
    requires i < |vals| && forall v :: |enc(v)| == w
    ensures Length(i, w) + w == Length(i + 1, w) <= |Join(vals, enc)| == Length(|vals|, w)
    ensures Join(vals, enc)[Length(i, w)..Length(i + 1, w)] == enc(vals[i])
    decreases |vals|
  {
    var k := |vals| - 1;
    var head := Join(vals[..k], enc);
    JoinLength(vals[..k], w, enc);
    assert Join(vals, enc) == head + enc(vals[k]);
    if i < k {
      JoinAt(vals[..k], w, enc, i);
      assert (head + enc(vals[k]))[Length(i, w)..Length(i + 1, w)] == head[Length(i, w)..Length(i + 1, w)];
    }
  }

  lemma {:induction false} JoinLength<T>(vals: seq<T>, w: nat, enc: T -> string)
    requires forall v :: |enc(v)| == w
    ensures |Join(vals, enc)| == Length(|vals|, w)
    decreases |vals|
  {
    if |vals| > 0 {
      JoinLength(vals[..|vals| - 1], w, enc);
    }
  }
}
