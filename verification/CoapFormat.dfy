/** CoAP messages (sections 3 and 3.1 of RFC 7252) as mongoose prints and parses them, on values. */
module CoapFormat {
  import opened Bytes
  import opened Endian

  const TWO_16: nat := 0x1_0000
  const MARKER: byte := 0xFF

  /** The largest option number and value length compose accepts: 0xFFFF + 269. */
  const MAX_EXT: nat := 65804

  datatype Opt = Opt(number: nat, value: bytes)

  datatype Message = Message(
    msgType: byte, codeClass: byte, codeDetail: byte, msgId: nat,
    token: bytes, options: seq<Opt>, payload: bytes)

  /** Which field mg_coap_compose refuses, or which flag mg_coap_parse raises. */
  datatype Error = MsgTypeField | TokenField | CodeClassField | CodeDetailField | OptionField
                 | Ignore | FormatError | NotEnoughData

  datatype Result = Ok(message: Message) | Err(error: Error)

  // ---------- The option list ----------

  predicate Sorted(opts: seq<Opt>) {
    forall i :: 0 <= i < |opts| - 1 ==> opts[i].number <= opts[i + 1].number
  }

  /** The index of the first option whose number is above `n`. */
  function FirstAbove(opts: seq<Opt>, n: nat): (k: nat)
    ensures k <= |opts|
    ensures forall i :: 0 <= i < k ==> opts[i].number <= n
    ensures k < |opts| ==> opts[k].number > n
  {
    if opts == [] || opts[0].number > n then 0 else 1 + FirstAbove(opts[1..], n)
  }

  /** mg_coap_add_option: behind the last option if that is in order, else before the first larger one. */
  function AddOption(opts: seq<Opt>, o: Opt): seq<Opt> {
    if opts == [] || opts[|opts| - 1].number <= o.number then opts + [o]
    else var k := FirstAbove(opts, o.number); opts[..k] + [o] + opts[k..]
  }

  function AddAll(opts: seq<Opt>, added: seq<Opt>): seq<Opt>
    decreases |added|
  {
    if added == [] then opts else AddAll(AddOption(opts, added[0]), added[1..])
  }

  /** The options with number `n`, in their order. */
  function WithNumber(opts: seq<Opt>, n: nat): seq<Opt> {
    if opts == [] then []
    else (if opts[0].number == n then [opts[0]] else []) + WithNumber(opts[1..], n)
  }

  lemma {:induction false} WithNumberConcat(a: seq<Opt>, b: seq<Opt>, n: nat)
    ensures WithNumber(a + b, n) == WithNumber(a, n) + WithNumber(b, n)
  {
    if a == [] {
      assert a + b == b;
    } else {
      WithNumberConcat(a[1..], b, n);
      ConcatCut(a, b, 1);
      var first := if a[0].number == n then [a[0]] else [];
      ConcatAssoc(first, WithNumber(a[1..], n), WithNumber(b, n));
    }
  }

  lemma {:induction false} WithNumberNone(a: seq<Opt>, n: nat)
    requires forall o <- a :: o.number != n
    ensures WithNumber(a, n) == []
  {
    if a != [] {
      assert a[0] in a && forall o <- a[1..] :: o in a;
      WithNumberNone(a[1..], n);
    }
  }

  lemma {:induction false} SortedOrder(opts: seq<Opt>, i: nat, j: nat)
    requires Sorted(opts) && i <= j < |opts|
    ensures opts[i].number <= opts[j].number
    decreases j
  {
    if i < j {
      SortedOrder(opts, i, j - 1);
    }
  }

  /** Where the new option goes, in both cases. */
  function Place(opts: seq<Opt>, o: Opt): (k: nat)
    ensures k <= |opts|
  {
    if opts == [] || opts[|opts| - 1].number <= o.number then |opts| else FirstAbove(opts, o.number)
  }

  lemma AddOptionPlaces(opts: seq<Opt>, o: Opt)
    ensures AddOption(opts, o) == opts[..Place(opts, o)] + [o] + opts[Place(opts, o)..]
  {
    if Place(opts, o) == |opts| {
      assert opts[..|opts|] + [o] + opts[|opts|..] == opts + [o];
    }
  }

  lemma PlaceSplits(opts: seq<Opt>, o: Opt)
    requires Sorted(opts)
    ensures forall i :: 0 <= i < Place(opts, o) ==> opts[i].number <= o.number
    ensures forall i :: Place(opts, o) <= i < |opts| ==> opts[i].number > o.number
  {
    var k := Place(opts, o);
    forall i | 0 <= i < |opts|
      ensures i < k ==> opts[i].number <= o.number
      ensures i >= k ==> opts[i].number > o.number
    {
      SortedOrder(opts, i, |opts| - 1);
      if i >= k {
        SortedOrder(opts, k, i);
      }
    }
  }

  lemma WithNumberPlaced(opts: seq<Opt>, o: Opt, n: nat)
    requires Sorted(opts)
    ensures WithNumber(AddOption(opts, o), n) == WithNumber(opts, n) + (if o.number == n then [o] else [])
  {
    hide AddOption, Place;
    var k := Place(opts, o);
    AddOptionPlaces(opts, o);
    PlaceSplits(opts, o);
    var a, b := opts[..k], opts[k..];
    Cut(opts, k);
    WithNumberConcat(a, b, n);
    WithNumberConcat(a, [o], n);
    WithNumberConcat(a + [o], b, n);
    WithNumberOne(o, n);
    if o.number == n {
      WithNumberNone(b, n);
      assert WithNumber(a, n) + [] == WithNumber(a, n);
    } else {
      assert WithNumber(a, n) + [] == WithNumber(a, n);
      assert WithNumber(opts, n) + [] == WithNumber(opts, n);
    }
  }

  lemma WithNumberOne(o: Opt, n: nat)
    ensures WithNumber([o], n) == if o.number == n then [o] else []
  {
    assert [o][1..] == [];
  }

  /** Adding keeps the list sorted and puts the new option behind the ones with its number. */
  lemma AddOptionSorts(opts: seq<Opt>, o: Opt)
    requires Sorted(opts)
    ensures Sorted(AddOption(opts, o))
    ensures forall n: nat :: WithNumber(AddOption(opts, o), n) ==
                             WithNumber(opts, n) + (if o.number == n then [o] else [])
  {
    hide AddOption, Place, WithNumber;
    AddOptionPlaces(opts, o);
    PlaceSplits(opts, o);
    forall n: nat
      ensures WithNumber(AddOption(opts, o), n) == WithNumber(opts, n) + (if o.number == n then [o] else [])
    {
      WithNumberPlaced(opts, o, n);
    }
  }

  /** Options added in any order end up sorted by number, those of one number in the order of adding. */
  lemma {:induction false} AddAllSorts(opts: seq<Opt>, added: seq<Opt>)
    requires Sorted(opts)
    ensures Sorted(AddAll(opts, added))
    ensures forall n: nat :: WithNumber(AddAll(opts, added), n) == WithNumber(opts, n) + WithNumber(added, n)
    decreases |added|
  {
    if added == [] {
      forall n: nat
        ensures WithNumber(opts, n) == WithNumber(opts, n) + WithNumber(added, n)
      {
        assert WithNumber(opts, n) + [] == WithNumber(opts, n);
      }
    } else {
      var o := added[0];
      AddOptionSorts(opts, o);
      AddAllSorts(AddOption(opts, o), added[1..]);
      forall n: nat
        ensures WithNumber(AddAll(opts, added), n) == WithNumber(opts, n) + WithNumber(added, n)
      {
        ConcatAssoc(WithNumber(opts, n), if o.number == n then [o] else [], WithNumber(added[1..], n));
      }
    }
  }
}
