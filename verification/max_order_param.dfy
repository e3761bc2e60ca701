/** The boot option `memop-max-order=<domu>,<ctldom>,<hwdom>,<ptdom>` and its
    parser `parse_max_order` (xen-hypervisor/xen/common/memory.c). The
    option text is a sequence of tokens: a number as `simple_strtoul` reads
    it (one maximal run of digits, already converted), or any other
    character. `simple_strtoul` on text that does not start with a number
    reads 0 and consumes nothing. */
module MaxOrderParam {
  import opened Common
  import opened MemopArgs

  datatype Token = Num(value: nat) | Ch(c: char)

  const Comma := Ch(',')

  /** A value read and the text after it. */
  datatype Read = Read(value: nat, rest: seq<Token>)

  /** `simple_strtoul(s, &s, 0)`: the number at the front, or 0, and the
      text after it. */
  function StrToUL(s: seq<Token>): (r: Read)
    ensures |s| > 0 && s[0].Num? ==> r == Read(s[0].value, s[1..])
    ensures !(|s| > 0 && s[0].Num?) ==> r == Read(0, s)
  {
    if |s| > 0 && s[0].Num? then Read(s[0].value, s[1..]) else Read(0, s)
  }

  /** One assignment of the parser at `s`: unless a comma is next, the class
      takes the number read there, truncated to an `unsigned int`. */
  function Take(s: seq<Token>, dflt: nat): (r: Read)
  {
    if |s| > 0 && s[0] == Comma then Read(dflt, s)
    else var n := StrToUL(s); Read(Wrap32(n.value), n.rest)
  }

  /** One `if ( *s == ',' && *++s != ',' )` step: after a comma, read the
      next class unless another comma follows at once. The comma is
      consumed in either case. */
  function NextField(s: seq<Token>, dflt: nat): (r: Read)
  {
    if |s| > 0 && s[0] == Comma then Take(s[1..], dflt) else Read(dflt, s)
  }

  datatype Parsed = Parsed(limits: OrderLimits, ret: int)

  /** `parse_max_order(s)`: assign the classes in order and fail with
      -EINVAL if any text is left. `passthrough` is whether the fourth
      field exists at all. The assignments made before a failure stay. */
  function ParseMaxOrder(s: seq<Token>, l: OrderLimits, passthrough: bool): (r: Parsed)
    ensures r.ret == 0 || r.ret == -(EINVAL as int)
    ensures !passthrough ==> r.limits.ptdom == l.ptdom
    ensures LimitsInRange(l) ==> LimitsInRange(r.limits)
  {
    var domu := Take(s, l.domu);
    var ctldom := NextField(domu.rest, l.ctldom);
    var hwdom := NextField(ctldom.rest, l.hwdom);
    var ptdom := if passthrough then NextField(hwdom.rest, l.ptdom) else Read(l.ptdom, hwdom.rest);
    Parsed(OrderLimits(domu.value, ctldom.value, hwdom.value, ptdom.value),
           if |ptdom.rest| > 0 then -(EINVAL as int) else 0)
  }

  // A reference reading of the option: split at commas, then read each field.

  /** The text split at every comma. */
  function Split(s: seq<Token>): (r: seq<seq<Token>>)
    ensures |r| >= 1
    decreases |s|
  {
    if |s| == 0 then [[]]
    else if s[0] == Comma then [[]] + Split(s[1..])
    else var t := Split(s[1..]); [[s[0]] + t[0]] + t[1..]
  }

  /** A field the parser accepts: empty, or a single number. */
  predicate GoodField(f: seq<Token>) {
    |f| == 0 || (|f| == 1 && f[0].Num?)
  }

  /** The option is accepted: at most one field per class, each good. */
  predicate Accepted(s: seq<Token>, classes: nat) {
    var fields := Split(s);
    |fields| <= classes && forall k :: 0 <= k < |fields| ==> GoodField(fields[k])
  }

  /** What field k does to a class set to `dflt`: a number sets it (as an
      `unsigned int`); an empty field followed by a comma keeps it; an empty
      last field sets it to 0 (that is what reading a number from the end
      of the string gives); a class beyond the last field keeps it. */
  function FieldValue(fields: seq<seq<Token>>, k: nat, dflt: nat): (v: nat) {
    if k >= |fields| then dflt
    else if |fields[k]| == 1 && fields[k][0].Num? then Wrap32(fields[k][0].value)
    else if k == |fields| - 1 then 0
    else dflt
  }

  /** Reading a good first field yields its value and leaves text whose
      fields are an empty one followed by the rest. */
  lemma TakeGood(s: seq<Token>, dflt: nat)
    requires GoodField(Split(s)[0])
    ensures Take(s, dflt).value == FieldValue(Split(s), 0, dflt)
    ensures Split(Take(s, dflt).rest) == [[]] + Split(s)[1..]
  {
    if |s| > 0 && s[0] != Comma {
      assert s[0].Num?;
      var t := Split(s[1..]);
      assert |t[0]| == 0;
      if |s| > 1 {
        assert s[1] == Comma;
      }
    }
  }

  /** Reading a bad first field stops the parser at a character that is not
      a comma. */
  lemma TakeBad(s: seq<Token>, dflt: nat)
    requires !GoodField(Split(s)[0])
    ensures |Take(s, dflt).rest| > 0 && Take(s, dflt).rest[0] != Comma
  {
    assert |s| > 0 && s[0] != Comma;
    var t := Split(s[1..]);
    if s[0].Num? {
      assert |t[0]| >= 1;
      assert |s| > 1 && s[1] != Comma;
    }
  }

  lemma SplitHead(s: seq<Token>)
    ensures |s| == 0 ==> Split(s) == [[]]
    ensures |s| > 0 && s[0] == Comma ==> Split(s) == [[]] + Split(s[1..])
    ensures |s| > 0 && s[0] != Comma ==> |Split(s)[0]| >= 1
  {
  }

  lemma SplitEmpty(s: seq<Token>)
    ensures Split(s) == [[]] <==> |s| == 0
  {
    if |s| > 0 && s[0] != Comma {
      assert |Split(s)[0]| >= 1;
    }
  }

  /** Once the parser stands on a character that is not a comma, no later
      step moves. */
  lemma {:induction false} FoldStuck(s: seq<Token>, dflts: seq<nat>)
    requires |s| > 0 && s[0] != Comma
    ensures Fold(s, dflts).rest == s
    decreases |dflts|
  {
    if |dflts| > 0 {
      FoldStuck(s, dflts[1..]);
    }
  }

  /** The remaining steps of the parser, one per class default in `dflts`. */
  datatype Reads = Reads(values: seq<nat>, rest: seq<Token>)

  function Fold(s: seq<Token>, dflts: seq<nat>): (r: Reads)
    ensures |r.values| == |dflts|
    decreases |dflts|
  {
    if |dflts| == 0 then Reads([], s)
    else
      var f := NextField(s, dflts[0]);
      var t := Fold(f.rest, dflts[1..]);
      Reads([f.value] + t.values, t.rest)
  }

  /** The steps, from text whose fields are an empty one and then `rest`,
      consume all of it exactly when the reference accepts `rest`, and then
      read every class as the reference does. */
  lemma {:induction false} FoldMatches(s: seq<Token>, dflts: seq<nat>, rest: seq<seq<Token>>)
    requires Split(s) == [[]] + rest
    ensures var r := Fold(s, dflts);
      && (|r.rest| == 0 <==> |rest| <= |dflts| && forall k :: 0 <= k < |rest| ==> GoodField(rest[k]))
      && (|r.rest| == 0 ==> forall k :: 0 <= k < |dflts| ==> r.values[k] == FieldValue(rest, k, dflts[k]))
    decreases |dflts|
  {
    if |dflts| == 0 {
      SplitEmpty(s);
      assert |s| == 0 <==> rest == [] by {
        assert Split(s) == [[]] <==> rest == [];
      }
    } else if |rest| == 0 {
      SplitEmpty(s);
      FoldMatches(s, dflts[1..], rest);
    } else {
      SplitHead(s);
      assert |s| > 0 && s[0] == Comma;
      assert Split(s[1..]) == rest by {
        assert Split(s) == [[]] + Split(s[1..]);
        assert ([[]] + Split(s[1..]))[1..] == Split(s[1..]);
      }
      var f := NextField(s, dflts[0]);
      if GoodField(rest[0]) {
        TakeGood(s[1..], dflts[0]);
        FoldMatches(f.rest, dflts[1..], rest[1..]);
        var r := Fold(s, dflts);
        if |r.rest| == 0 {
          forall k | 1 <= k < |dflts|
            ensures r.values[k] == FieldValue(rest, k, dflts[k])
          {
            assert r.values[k] == Fold(f.rest, dflts[1..]).values[k - 1];
          }
        }
        if |rest| <= |dflts| && forall k :: 0 <= k < |rest| ==> GoodField(rest[k]) {
          assert forall k :: 0 <= k < |rest[1..]| ==> GoodField(rest[1..][k]) by {
            forall k | 0 <= k < |rest[1..]|
              ensures GoodField(rest[1..][k])
            {
              assert rest[1..][k] == rest[k + 1];
            }
          }
        }
      } else {
        TakeBad(s[1..], dflts[0]);
        FoldStuck(f.rest, dflts[1..]);
      }
    }
  }

  /** The parser is the steps above, started in front of an imaginary comma. */
  lemma ParseIsFold(s: seq<Token>, l: OrderLimits, passthrough: bool)
    ensures var r := Fold([Comma] + s, if passthrough then [l.domu, l.ctldom, l.hwdom, l.ptdom]
                                        else [l.domu, l.ctldom, l.hwdom]);
      var p := ParseMaxOrder(s, l, passthrough);
      && (p.ret == 0 <==> |r.rest| == 0)
      && p.limits == OrderLimits(r.values[0], r.values[1], r.values[2], if passthrough then r.values[3] else l.ptdom)
  {
    var s0 := [Comma] + s;
    assert s0[1..] == s;
    var domu := Take(s, l.domu);
    assert NextField(s0, l.domu) == domu;
    var ctldom := NextField(domu.rest, l.ctldom);
    var hwdom := NextField(ctldom.rest, l.hwdom);
    if passthrough {
      var ptdom := NextField(hwdom.rest, l.ptdom);
      var f3 := Fold(hwdom.rest, [l.ptdom]);
      assert [l.ptdom][1..] == [];
      assert Fold(ptdom.rest, []) == Reads([], ptdom.rest);
      assert [ptdom.value] + [] == [ptdom.value];
      assert f3 == Reads([ptdom.value], ptdom.rest);
      var f2 := Fold(ctldom.rest, [l.hwdom, l.ptdom]);
      assert [l.hwdom, l.ptdom][1..] == [l.ptdom];
      assert f2 == Reads([hwdom.value, ptdom.value], ptdom.rest);
      var f1 := Fold(domu.rest, [l.ctldom, l.hwdom, l.ptdom]);
      assert [l.ctldom, l.hwdom, l.ptdom][1..] == [l.hwdom, l.ptdom];
      assert f1 == Reads([ctldom.value, hwdom.value, ptdom.value], ptdom.rest);
      assert [l.domu, l.ctldom, l.hwdom, l.ptdom][1..] == [l.ctldom, l.hwdom, l.ptdom];
    } else {
      var f2 := Fold(ctldom.rest, [l.hwdom]);
      assert [l.hwdom][1..] == [];
      assert Fold(hwdom.rest, []) == Reads([], hwdom.rest);
      assert [hwdom.value] + [] == [hwdom.value];
      assert f2 == Reads([hwdom.value], hwdom.rest);
      var f1 := Fold(domu.rest, [l.ctldom, l.hwdom]);
      assert [l.ctldom, l.hwdom][1..] == [l.hwdom];
      assert f1 == Reads([ctldom.value, hwdom.value], hwdom.rest);
      assert [l.domu, l.ctldom, l.hwdom][1..] == [l.ctldom, l.hwdom];
    }
  }

  /** The parser accepts exactly the options the reference accepts, and then
      sets every class as the reference reads it. */
  lemma ParseMatchesReference(s: seq<Token>, l: OrderLimits, passthrough: bool)
    ensures var classes := if passthrough then 4 else 3;
      ParseMaxOrder(s, l, passthrough).ret == 0 <==> Accepted(s, classes)
    ensures Accepted(s, if passthrough then 4 else 3) ==>
      var f := Split(s);
      ParseMaxOrder(s, l, passthrough).limits ==
        OrderLimits(FieldValue(f, 0, l.domu), FieldValue(f, 1, l.ctldom), FieldValue(f, 2, l.hwdom),
                    if passthrough then FieldValue(f, 3, l.ptdom) else l.ptdom)
  {
    var dflts := if passthrough then [l.domu, l.ctldom, l.hwdom, l.ptdom] else [l.domu, l.ctldom, l.hwdom];
    assert Split([Comma] + s) == [[]] + Split(s) by {
      assert ([Comma] + s)[1..] == s;
    }
    ParseIsFold(s, l, passthrough);
    FoldMatches([Comma] + s, dflts, Split(s));
  }

  /** The option text for four limits, as `d,c,h,p`. */
  function Format(l: OrderLimits): seq<Token> {
    [Num(l.domu), Comma, Num(l.ctldom), Comma, Num(l.hwdom), Comma, Num(l.ptdom)]
  }

  /** Round trip: the option written out from limits in range is accepted
      and reads back as those limits, whatever the defaults were. */
  lemma FormatRoundTrip(l: OrderLimits, defaults: OrderLimits)
    requires LimitsInRange(l)
    ensures ParseMaxOrder(Format(l), defaults, true) == Parsed(l, 0)
  {
  }

  /** Empty fields between commas keep the defaults: `,,12,` on a
      passthrough build changes only the hardware limit, and the empty last
      field sets the passthrough limit to 0. */
  lemma EmptyFieldsKeepDefaults(l: OrderLimits)
    ensures ParseMaxOrder([Comma, Comma, Num(12), Comma], l, true) ==
      Parsed(OrderLimits(l.domu, l.ctldom, 12, 0), 0)
  {
  }

  /** Text after the last field is refused, though the fields before it are
      still assigned. */
  lemma TrailingTextRefused(l: OrderLimits)
    ensures ParseMaxOrder([Num(9), Ch('x')], l, true) == Parsed(l.(domu := 9), -(EINVAL as int))
  {
  }
}
