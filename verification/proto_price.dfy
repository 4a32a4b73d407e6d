/** How many bytes a message of a type takes at least if it is to be decoded without a report: a function
    of the schema alone. Every required field has a price, that of its own cheapest record or of a
    record that is counted in its place; a message costs what its required fields do. */
module ProtoPrice {
  import opened Options
  import opened Sets
  import opened Varints
  import opened ProtoNumbers
  import opened ProtoSchema
  import opened ProtoAdvance
  import opened ProtoFill

  /** A number of bytes, or that there are none that would do. */
  datatype Size = Never | Bytes(n: nat)

  predicate AtMost(a: Size, b: Size) {
    b.Never? || (a.Bytes? && a.n <= b.n)
  }

  function Least(a: Size, b: Size): Size {
    if AtMost(a, b) then a else b
  }

  function Plus(a: Size, b: Size): Size {
    if a.Bytes? && b.Bytes? then Bytes(a.n + b.n) else Never
  }

  // ---- Choosing records ----

  /** A record of the field is counted every time it is read. */
  predicate Repeatable(d: MsgDesc, costs: seq<Size>, i: nat) {
    IsRequired(d, i) && d.fields[i].tag > 64 && i < |costs| && costs[i].Bytes?
  }

  /** The cheapest field that can be repeated in place of others. */
  function Standby(d: MsgDesc, costs: seq<Size>, k: nat): (r: Option<nat>)
    requires k <= |costs| == |d.fields|
    ensures r.Some? ==> Repeatable(d, costs, r.value)
    ensures forall i: nat :: k <= i && Repeatable(d, costs, i) ==> r.Some? && costs[r.value].n <= costs[i].n
    decreases |costs| - k
  {
    if k == |costs| then None
    else
      var r := Standby(d, costs, k + 1);
      if Repeatable(d, costs, k) && (r.None? || costs[k].n <= costs[r.value].n) then Some(k) else r
  }

  function Spare(d: MsgDesc, costs: seq<Size>): Size
    requires |costs| == |d.fields|
  {
    match Standby(d, costs, 0)
    case Some(j) => costs[j]
    case None => Never
  }

  /** The field whose record is written for required field `i`. */
  function Pick(d: MsgDesc, costs: seq<Size>, i: nat): (j: nat)
    requires i < |costs| == |d.fields|
    ensures j != i ==> Repeatable(d, costs, j)
    ensures j < |costs| && costs[j] == Price(d, costs, i)
  {
    if AtMost(costs[i], Spare(d, costs)) then i else Standby(d, costs, 0).value
  }

  function Price(d: MsgDesc, costs: seq<Size>, i: nat): Size
    requires i < |costs| == |d.fields|
  {
    Least(costs[i], Spare(d, costs))
  }

  /** The price of the required fields from `k` on that are not in `marked`. */
  ghost function Owed(d: MsgDesc, costs: seq<Size>, marked: set<nat>, k: nat): Size
    requires k <= |costs| == |d.fields|
    decreases |costs| - k
  {
    if k == |costs| then Bytes(0)
    else if IsRequired(d, k) && k !in marked then Plus(Price(d, costs, k), Owed(d, costs, marked, k + 1))
    else Owed(d, costs, marked, k + 1)
  }

  /** The price of all required fields from `k` on. */
  function Total(d: MsgDesc, costs: seq<Size>, k: nat): (t: Size)
    requires k <= |costs| == |d.fields|
    ensures t == Owed(d, costs, {}, k)
    decreases |costs| - k
  {
    if k == |costs| then Bytes(0)
    else if IsRequired(d, k) then Plus(Price(d, costs, k), Total(d, costs, k + 1))
    else Total(d, costs, k + 1)
  }

  /** Cheaper records, at least of the fields that cost no more than the whole does, make it cheaper. */
  predicate Cheaper(d: MsgDesc, costs': seq<Size>, costs: seq<Size>, x: nat)
    requires |costs'| == |costs|
  {
    forall i | 0 <= i < |costs| ::
      IsRequired(d, i) && costs[i].Bytes? && costs[i].n <= x ==> AtMost(costs'[i], costs[i])
  }

  lemma PriceFalls(d: MsgDesc, costs': seq<Size>, costs: seq<Size>, x: nat, i: nat)
    requires i < |costs'| == |costs| == |d.fields| && Cheaper(d, costs', costs, x) && IsRequired(d, i)
    requires AtMost(Price(d, costs, i), Bytes(x))
    ensures AtMost(Price(d, costs', i), Price(d, costs, i))
  {
    var j := Pick(d, costs, i);
    assert AtMost(costs'[j], costs[j]);
    if j != i {
      assert Repeatable(d, costs', j);
    }
  }

  lemma {:induction false} TotalFalls(d: MsgDesc, costs': seq<Size>, costs: seq<Size>, x: nat, k: nat)
    requires k <= |costs'| == |costs| == |d.fields| && Cheaper(d, costs', costs, x)
    requires AtMost(Total(d, costs, k), Bytes(x))
    ensures AtMost(Total(d, costs', k), Total(d, costs, k))
    decreases |costs| - k
  {
    if k < |costs| {
      TotalFalls(d, costs', costs, x, k + 1);
      if IsRequired(d, k) {
        PriceFalls(d, costs', costs, x, k);
      }
    }
  }

  // ---- What records cost ----

  function KeySize(fd: FieldDesc): nat {
    |Key(fd.tag, WireOf(fd.kind))|
  }

  /** Records inside a group, where nothing that is missing further in counts. */
  function GroupCosts(d: MsgDesc): seq<Size> {
    seq(|d.fields|, i requires 0 <= i < |d.fields| => Bytes(KeySize(d.fields[i]) + |Trivial(d.fields[i])|))
  }

  /** Records inside a message, with messages at most `n` levels deep in them. */
  function Costs(S: Schema, d: MsgDesc, n: nat): seq<Size>
    decreases n, 1
  {
    seq(|d.fields|, i requires 0 <= i < |d.fields| => Cost(S, d.fields[i], n))
  }

  function Cost(S: Schema, fd: FieldDesc, n: nat): Size
    decreases n, 0
  {
    match fd.kind
    case Message(ty) => if n == 0 then Never else Embedded(fd, LeastSize(S, ty, n - 1))
    case Group(ty) => if ty < |S| then Plus(Bytes(KeySize(fd) + 1), Total(S[ty], GroupCosts(S[ty]), 0)) else Never
    case _ => Bytes(KeySize(fd) + |Trivial(fd)|)
  }

  /** A message of the size behind its key and its length, which must fit an int64. */
  function Embedded(fd: FieldDesc, size: Size): Size {
    match size
    case Bytes(k) => if k < TWO_63 then Bytes(KeySize(fd) + |Varint(k)| + k) else Never
    case Never => Never
  }

  /** The least size of a message of the type that is decoded without a report, with messages at most
      `n` levels deep in it. */
  function LeastSize(S: Schema, ty: nat, n: nat): Size
    decreases n, 2
  {
    if ty < |S| then Total(S[ty], Costs(S, S[ty], n), 0) else Never
  }

  lemma VarintGrows(a: nat, b: nat)
    requires a <= b
    ensures |Varint(a)| <= |Varint(b)|
  {
    VarintSize(b, |Varint(b)|);
    VarintSize(a, |Varint(b)|);
  }

  lemma EmbeddedFalls(fd: FieldDesc, a: Size, b: Size)
    requires AtMost(a, b)
    ensures AtMost(Embedded(fd, a), Embedded(fd, b))
  {
    if b.Bytes? {
      VarintGrows(a.n, b.n);
    }
  }

  /** More levels can only make it cheaper. */
  lemma {:induction false} DeeperIsCheaper(S: Schema, ty: nat, m: nat, n: nat)
    requires m <= n
    ensures AtMost(LeastSize(S, ty, n), LeastSize(S, ty, m))
    decreases m
  {
    if LeastSize(S, ty, m).Bytes? {
      var d := S[ty];
      forall i | 0 <= i < |d.fields| ensures AtMost(Cost(S, d.fields[i], n), Cost(S, d.fields[i], m)) {
        if d.fields[i].kind.Message? && m > 0 {
          var inner := d.fields[i].kind.ty;
          DeeperIsCheaper(S, inner, m - 1, n - 1);
          EmbeddedFalls(d.fields[i], LeastSize(S, inner, n - 1), LeastSize(S, inner, m - 1));
        }
      }
      TotalFalls(d, Costs(S, d, n), Costs(S, d, m), LeastSize(S, ty, m).n, 0);
    }
  }

  // ---- As many levels as there are types are enough ----

  /** The types that cost less than `x`. */
  function Under(S: Schema, n: nat, x: nat): set<nat> {
    set ty: nat | ty < |S| && LeastSize(S, ty, n).Bytes? && LeastSize(S, ty, n).n < x
  }

  /** A type's cheapest message holds only cheaper types, and in these again only cheaper ones: so its
      levels are no more than the types that are cheaper than itself. */
  lemma {:induction false} Settles(S: Schema, ty: nat, n: nat, k: nat)
    requires LeastSize(S, ty, n).Bytes? && |Under(S, n, LeastSize(S, ty, n).n)| <= k
    ensures AtMost(LeastSize(S, ty, k), LeastSize(S, ty, n))
    decreases LeastSize(S, ty, n).n
  {
    var d := S[ty];
    var x := LeastSize(S, ty, n).n;
    forall i | 0 <= i < |d.fields| && AtMost(Cost(S, d.fields[i], n), Bytes(x))
      ensures AtMost(Cost(S, d.fields[i], k), Cost(S, d.fields[i], n))
    {
      if d.fields[i].kind.Message? {
        FieldSettles(S, d.fields[i], n, k, x);
      }
    }
    TotalFalls(d, Costs(S, d, k), Costs(S, d, n), x, 0);
  }

  lemma {:induction false} FieldSettles(S: Schema, fd: FieldDesc, n: nat, k: nat, x: nat)
    requires fd.kind.Message? && AtMost(Cost(S, fd, n), Bytes(x)) && |Under(S, n, x)| <= k
    ensures AtMost(Cost(S, fd, k), Cost(S, fd, n))
    decreases x, 0
  {
    var inner := fd.kind.ty;
    DeeperIsCheaper(S, inner, n - 1, n);
    var y := LeastSize(S, inner, n).n;
    assert y < x && inner in Under(S, n, x) && inner !in Under(S, n, y);
    assert Under(S, n, y) <= Under(S, n, x);
    Larger(Under(S, n, y), Under(S, n, x));
    Settles(S, inner, n, k - 1);
    EmbeddedFalls(fd, LeastSize(S, inner, k - 1), LeastSize(S, inner, n - 1));
  }

  /** So the least size is found after as many rounds as the schema has types. */
  lemma EnoughLevels(S: Schema, ty: nat, n: nat)
    ensures AtMost(LeastSize(S, ty, |S|), LeastSize(S, ty, n))
  {
    if LeastSize(S, ty, n).Bytes? {
      var cheaper := Under(S, n, LeastSize(S, ty, n).n);
      assert cheaper <= Below(|S|);
      Smaller(cheaper, Below(|S|));
      Settles(S, ty, n, |S|);
    }
  }

  /** The least size can double with every type: two required messages take twice what one takes. */
  lemma SilenceDoubles(S: Schema, ty: nat, inner: nat, n: nat)
    requires ty < |S|
    requires S[ty].fields == [FieldDesc(1, Message(inner), Required), FieldDesc(2, Message(inner), Required)]
    requires LeastSize(S, ty, n + 1).Bytes?
    ensures LeastSize(S, inner, n).Bytes? && LeastSize(S, ty, n + 1).n >= 2 * LeastSize(S, inner, n).n + 4
  {
    var d := S[ty];
    var costs := Costs(S, d, n + 1);
    assert costs[0] == Cost(S, d.fields[0], n + 1) && costs[1] == Cost(S, d.fields[1], n + 1);
    assert Spare(d, costs) == Never;
    assert Total(d, costs, 0) == Plus(Price(d, costs, 0), Plus(Price(d, costs, 1), Bytes(0)));
  }
}
