/** `ListVPCNames` of the handlers package: collect the value of every tag
    keyed `Name` over all VPCs of the account, then strip one trailing
    `-vpc` from each collected name, in place. */
module Networks {
  import opened Text

  datatype Tag = Tag(key: string, value: string)

  /** A VPC as `DescribeVpcs` returns it; only its tags matter here. */
  datatype Vpc = Vpc(tags: seq<Tag>)

  /** The answer of `DescribeVpcs`: the VPCs, or an error. */
  datatype Described = Described(vpcs: seq<Vpc>) | DescribeFailed

  /** The outcome of `ListVPCNames`: the trimmed names, or the process ends
      with the given status. */
  datatype Listing = Names(names: seq<string>) | Exit(code: int)

  const NameKey: string := "Name"
  const VpcSuffix: string := "-vpc"

  /** The values of the tags of `tags` keyed exactly `Name`, in tag order. */
  function NameValues(tags: seq<Tag>): seq<string>
  {
    if tags == [] then []
    else
      var last := tags[|tags| - 1];
      NameValues(tags[..|tags| - 1]) + (if last.key == NameKey then [last.value] else [])
  }

  /** The `Name` tag values of all VPCs, in VPC order and then tag order. */
  function NameTags(vpcs: seq<Vpc>): seq<string>
  {
    if vpcs == [] then []
    else NameTags(vpcs[..|vpcs| - 1]) + NameValues(vpcs[|vpcs| - 1].tags)
  }

  /** `strings.TrimSuffix(name, "-vpc")`. */
  function TrimVpc(name: string): string {
    TrimSuffix(name, VpcSuffix)
  }

  /** The list after the trimming pass: same length, entry i trimmed. */
  function TrimmedNames(names: seq<string>): (r: seq<string>)
    ensures |r| == |names|
  {
    seq(|names|, i requires 0 <= i < |names| => TrimVpc(names[i]))
  }

  /** The nested collecting loop: appends each `Name` tag value it meets. */
  method CollectNames(vpcs: seq<Vpc>) returns (names: seq<string>)
    ensures names == NameTags(vpcs)
  {
    names := [];
    for i := 0 to |vpcs|
      invariant names == NameTags(vpcs[..i])
    {
      assert vpcs[..i + 1][..i] == vpcs[..i];
      var tags := vpcs[i].tags;
      ghost var before := names;
      for j := 0 to |tags|
        invariant names == before + NameValues(tags[..j])
      {
        assert tags[..j + 1][..j] == tags[..j];
        if tags[j].key == NameKey {
          names := names + [tags[j].value];
        }
      }
      assert tags[..|tags|] == tags;
    }
    assert vpcs[..|vpcs|] == vpcs;
  }

  /** The trimming pass: overwrites every entry with its trimmed form. */
  method TrimInPlace(a: array<string>)
    modifies a
    ensures a[..] == TrimmedNames(old(a[..]))
  {
    for i := 0 to a.Length
      invariant forall k :: 0 <= k < i ==> a[k] == TrimVpc(old(a[k]))
      invariant forall k :: i <= k < a.Length ==> a[k] == old(a[k])
    {
      a[i] := TrimSuffix(a[i], VpcSuffix);
    }
  }

  /** `ListVPCNames`: a failure to describe the VPCs ends the process with
      status 1; otherwise the trimmed `Name` tag values. */
  method ListVpcNames(described: Described) returns (r: Listing)
    ensures described.DescribeFailed? ==> r == Exit(1)
    ensures described.Described? ==> r == Names(TrimmedNames(NameTags(described.vpcs)))
  {
    if described.DescribeFailed? {
      return Exit(1);
    }
    var collected := CollectNames(described.vpcs);
    var a := new string[|collected|](i requires 0 <= i < |collected| => collected[i]);
    assert a[..] == collected;
    TrimInPlace(a);
    r := Names(a[..]);
  }

  // ---------------------------------------------------------------------
  // Collecting

  lemma {:induction false} NameValuesAppend(a: seq<Tag>, b: seq<Tag>)
    ensures NameValues(a + b) == NameValues(a) + NameValues(b)
  {
    if b == [] {
      assert a + b == a;
    } else {
      var n := |b| - 1;
      var ab := a + b;
      assert ab[..|ab| - 1] == a + b[..n];
      assert ab[|ab| - 1] == b[n];
      calc {
        NameValues(ab);
        NameValues(a + b[..n]) + (if b[n].key == NameKey then [b[n].value] else []);
        { NameValuesAppend(a, b[..n]); }
        NameValues(a) + NameValues(b[..n]) + (if b[n].key == NameKey then [b[n].value] else []);
      }
    }
  }

  /** Collecting over VPCs `a` then `b` gives `a`'s names then `b`'s. */
  lemma {:induction false} NameTagsAppend(a: seq<Vpc>, b: seq<Vpc>)
    ensures NameTags(a + b) == NameTags(a) + NameTags(b)
  {
    if b == [] {
      assert a + b == a;
    } else {
      var n := |b| - 1;
      var ab := a + b;
      assert ab[..|ab| - 1] == a + b[..n];
      assert ab[|ab| - 1] == b[n];
      calc {
        NameTags(ab);
        NameTags(a + b[..n]) + NameValues(b[n].tags);
        { NameTagsAppend(a, b[..n]); }
        NameTags(a) + NameTags(b[..n]) + NameValues(b[n].tags);
      }
    }
  }

  /** One VPC contributes exactly the values of its tags keyed `Name`;
      a tag with any other key contributes nothing. */
  lemma OneVpc(v: Vpc)
    ensures NameTags([v]) == NameValues(v.tags)
    ensures forall k, x :: NameValues([Tag(k, x)]) == (if k == NameKey then [x] else [])
  {
    assert [v][..0] == [];
  }

  /** A VPC without a `Name` tag contributes nothing. */
  lemma {:induction false} NoNameTagNoEntry(tags: seq<Tag>)
    requires forall t :: t in tags ==> t.key != NameKey
    ensures NameValues(tags) == []
  {
    if tags != [] {
      assert forall t :: t in tags[..|tags| - 1] ==> t in tags;
      NoNameTagNoEntry(tags[..|tags| - 1]);
    }
  }

  /** A value is collected iff some VPC carries it under the key `Name`. */
  lemma {:induction false} CollectedIff(vpcs: seq<Vpc>, x: string)
    ensures x in NameTags(vpcs) <==> exists v :: v in vpcs && Tag(NameKey, x) in v.tags
  {
    if vpcs != [] {
      var n := |vpcs| - 1;
      CollectedIff(vpcs[..n], x);
      NameValuesIff(vpcs[n].tags, x);
      if x in NameTags(vpcs[..n]) {
        var v :| v in vpcs[..n] && Tag(NameKey, x) in v.tags;
        assert v in vpcs;
      }
      if exists v :: v in vpcs && Tag(NameKey, x) in v.tags {
        var v :| v in vpcs && Tag(NameKey, x) in v.tags;
        if v != vpcs[n] {
          assert vpcs == vpcs[..n] + [vpcs[n]];
          assert v in vpcs[..n];
        }
      }
    }
  }

  lemma {:induction false} NameValuesIff(tags: seq<Tag>, x: string)
    ensures x in NameValues(tags) <==> Tag(NameKey, x) in tags
  {
    if tags != [] {
      var n := |tags| - 1;
      NameValuesIff(tags[..n], x);
      assert tags == tags[..n] + [tags[n]];
    }
  }

  // ---------------------------------------------------------------------
  // Trimming

  /** Trimming removes exactly one trailing `-vpc`. */
  lemma TrimOnce()
    ensures TrimVpc("a-vpc-vpc") == "a-vpc"
    ensures TrimVpc("a-vpc") == "a"
    ensures TrimVpc("acme") == "acme"
  {
    assert "a-vpc-vpc"[5..] == VpcSuffix;
    assert "a-vpc"[1..] == VpcSuffix;
    assert "acme"[0..] != VpcSuffix;
  }

  /** Trimming twice is the same as trimming once exactly when the name
      does not end in `-vpc-vpc`. */
  lemma TrimTwiceIff(x: string)
    ensures TrimVpc(TrimVpc(x)) == TrimVpc(x) <==> !HasSuffix(x, "-vpc-vpc")
  {
    var n := |x|;
    if HasSuffix(x, "-vpc-vpc") {
      assert x[n - 4..] == x[n - 8..][4..];
      assert HasSuffix(x, VpcSuffix);
      var t := TrimVpc(x);
      assert t == x[..n - 4];
      assert t[|t| - 4..] == x[n - 8..n - 4] == x[n - 8..][..4];
      assert HasSuffix(t, VpcSuffix);
      assert |TrimVpc(t)| == |t| - 4;
    }
  }

  /** After the pass, entry i is the i-th collected name with one trailing
      `-vpc` removed when it had one, and unchanged otherwise. */
  lemma TrimmedAt(names: seq<string>, i: int)
    requires 0 <= i < |names|
    ensures HasSuffix(names[i], VpcSuffix) ==> TrimmedNames(names)[i] + VpcSuffix == names[i]
    ensures !HasSuffix(names[i], VpcSuffix) ==> TrimmedNames(names)[i] == names[i]
  {
  }
}
