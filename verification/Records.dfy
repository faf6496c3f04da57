/** Ledger records, the envelopes that are published, and the hash link. */
module Records {
  import opened Wrappers
  import opened Decimal

  /** SHA3-256 of a text, as hexadecimal text: an arbitrary total function. */
  type Hash = string -> string

  const HEX_WIDTH := 64
  const GENESIS: string := Zeros(HEX_WIDTH)

  function Zeros(n: nat): (s: string)
    ensures |s| == n
  {
    seq(n, i => '0')
  }

  ghost predicate HexDigests(H: Hash) {
    forall x :: |H(x)| == HEX_WIDTH
  }

  // distinct texts with one digest
  ghost predicate Collision(H: Hash, x: string, y: string) {
    x != y && H(x) == H(y)
  }

  // the fields are concatenated without separators
  function ChainPreimage(prev: string, binding: string, txn: string, ts: int): string {
    prev + binding + txn + Dec(ts)
  }

  function ComputeChainHash(H: Hash, prev: string, binding: string, txn: string, ts: int): string {
    H(ChainPreimage(prev, binding, txn, ts))
  }

  datatype Status = PENDING | VERIFIED | QUARANTINED | REJECTED

  /** One committed transaction as the prover keeps it. */
  datatype Record = Record(
    txn: string, commitment: string, binding: string, lwe: map<string, int>, ts: int,
    seq_: nat, prev: string, chain: string, signature: string, status: Status)

  /** A published record as it arrives: any field of the export format that the
      checks read may be missing, and extra names the fields outside the format. */
  datatype Envelope = Envelope(
    txnId: Option<string>, seqNo: Option<int>, commitment: Option<string>, bindingHash: Option<string>,
    prevHash: Option<string>, chainHash: Option<string>, signature: Option<string>,
    lweParams: Option<map<string, int>>, timestamp: Option<int>, piiBytes: Option<int>,
    extra: set<string>)
  {
    // the readers' defaults for missing fields
    function Txn(): string { txnId.GetOr("") }
    function Seq(): int { seqNo.GetOr(0) }
    function Binding(): string { bindingHash.GetOr("") }
    function Prev(): string { prevHash.GetOr("") }
    function Chain(): string { chainHash.GetOr("") }
    function Ts(): int { timestamp.GetOr(0) }

    function Preimage(): string {
      ChainPreimage(Prev(), Binding(), Txn(), Ts())
    }
  }

  /** The zero-PII export of a record. */
  function Export(r: Record): Envelope {
    Envelope(Some(r.txn), Some(r.seq_), Some(r.commitment), Some(r.binding), Some(r.prev),
             Some(r.chain), Some(r.signature), Some(r.lwe), Some(r.ts), Some(0), {})
  }

  function ExportAll(rs: seq<Record>): (es: seq<Envelope>)
    ensures |es| == |rs|
    ensures forall i :: 0 <= i < |rs| ==> es[i] == Export(rs[i])
  {
    seq(|rs|, i requires 0 <= i < |rs| => Export(rs[i]))
  }

  // ---- signing payload ----

  const SEPARATOR: char := '\U{001F}'

  // one field, the separator, and what follows
  function Field(a: string, rest: string): string {
    a + [SEPARATOR] + rest
  }

  function SigningPayload(txn: string, binding: string, ts: int, chain: string): string {
    Field(txn, Field(binding, Field(Dec(ts), chain)))
  }

  // parts of equal widths are determined by their concatenation
  lemma TwoParts(x: string, y: string, x': string, y': string)
    requires |x| == |x'|
    ensures x + y == x' + y' <==> x == x' && y == y'
  {
    assert (x + y)[..|x|] == x && (x' + y')[..|x'|] == x';
    assert (x + y)[|x|..] == y && (x' + y')[|x'|..] == y';
  }

  // parts of equal widths, counted from the end
  lemma TwoPartsRight(x: string, y: string, x': string, y': string)
    requires |y| == |y'|
    ensures x + y == x' + y' <==> x == x' && y == y'
  {
    if x + y == x' + y' {
      assert |x + y| == |x| + |y| && |x' + y'| == |x'| + |y'|;
      TwoParts(x, y, x', y');
    }
  }

  lemma LastSeparator(a: string, x: string, k: nat)
    requires SEPARATOR !in x && k < |Field(a, x)|
    ensures k < |x| ==> Field(a, x)[|Field(a, x)| - 1 - k] != SEPARATOR
    ensures k == |x| ==> Field(a, x)[|Field(a, x)| - 1 - k] == SEPARATOR
  {
    if k < |x| { assert Field(a, x)[|Field(a, x)| - 1 - k] == x[|x| - 1 - k] && x[|x| - 1 - k] in x; }
  }

  lemma LastNotLonger(a: string, x: string, b: string, y: string)
    requires SEPARATOR !in x && SEPARATOR !in y && Field(a, x) == Field(b, y)
    ensures |x| <= |y|
  {
    LastSeparator(a, x, |y|);
    LastSeparator(b, y, |y|);
  }

  // the part behind the last separator is determined
  lemma SplitLast(a: string, x: string, b: string, y: string)
    requires SEPARATOR !in x && SEPARATOR !in y
    requires Field(a, x) == Field(b, y)
    ensures a == b && x == y
  {
    LastNotLonger(a, x, b, y);
    LastNotLonger(b, y, a, x);
    TwoPartsRight(a + [SEPARATOR], x, b + [SEPARATOR], y);
    TwoPartsRight(a, [SEPARATOR], b, [SEPARATOR]);
  }

  lemma SameRest(a: string, b: string, rest: string)
    requires Field(a, rest) == Field(b, rest)
    ensures a == b
  {
    TwoPartsRight(a + [SEPARATOR], rest, b + [SEPARATOR], rest);
    TwoPartsRight(a, [SEPARATOR], b, [SEPARATOR]);
  }

  lemma DecHasNoSeparator(n: int)
    ensures SEPARATOR !in Dec(n)
  {
  }

  lemma PayloadGrouped(txn: string, binding: string, ts: int, chain: string)
    ensures SigningPayload(txn, binding, ts, chain) == Field(Field(Field(txn, binding), Dec(ts)), chain)
  {
  }

  /** The payload splits from the right: when neither record has a separator in
      its hashes, equal payloads mean equal fields, whatever the ids contain. */
  lemma PayloadFromRight(txn: string, binding: string, ts: int, chain: string,
                         txn': string, binding': string, ts': int, chain': string)
    requires SEPARATOR !in binding && SEPARATOR !in chain && SEPARATOR !in binding' && SEPARATOR !in chain'
    ensures SigningPayload(txn, binding, ts, chain) == SigningPayload(txn', binding', ts', chain')
            <==> txn == txn' && binding == binding' && ts == ts' && chain == chain'
  {
    if SigningPayload(txn, binding, ts, chain) == SigningPayload(txn', binding', ts', chain') {
      PayloadGrouped(txn, binding, ts, chain);
      PayloadGrouped(txn', binding', ts', chain');
      DecHasNoSeparator(ts);
      DecHasNoSeparator(ts');
      SplitLast(Field(Field(txn, binding), Dec(ts)), chain, Field(Field(txn', binding'), Dec(ts')), chain');
      SplitLast(Field(txn, binding), Dec(ts), Field(txn', binding'), Dec(ts'));
      SplitLast(txn, binding, txn', binding');
      DecInjective(ts, ts');
    }
  }

  // how many separators a text contains
  function Separators(s: string): (n: nat)
    ensures n == 0 <==> SEPARATOR !in s
  {
    if s == "" then 0
    else
      assert s == s[..|s| - 1] + [s[|s| - 1]];
      Separators(s[..|s| - 1]) + if s[|s| - 1] == SEPARATOR then 1 else 0
  }

  lemma {:induction false} SeparatorsConcat(a: string, b: string)
    ensures Separators(a + b) == Separators(a) + Separators(b)
  {
    if b == "" {
      assert a + b == a;
    } else {
      SeparatorsConcat(a, b[..|b| - 1]);
      assert (a + b)[..|a + b| - 1] == a + b[..|b| - 1];
    }
  }

  lemma SeparatorsField(a: string, rest: string)
    ensures Separators(Field(a, rest)) == Separators(a) + 1 + Separators(rest)
  {
    SeparatorsConcat(a + [SEPARATOR], rest);
    SeparatorsConcat(a, [SEPARATOR]);
    assert [SEPARATOR][..0] == "";
  }

  lemma SeparatorsPayload(txn: string, binding: string, ts: int, chain: string)
    ensures Separators(SigningPayload(txn, binding, ts, chain))
         == 3 + Separators(txn) + Separators(binding) + Separators(chain)
  {
    DecHasNoSeparator(ts);
    SeparatorsField(txn, Field(binding, Field(Dec(ts), chain)));
    SeparatorsField(binding, Field(Dec(ts), chain));
    SeparatorsField(Dec(ts), chain);
  }

  /** A payload whose record contains no separator has no second reading,
      whatever the fields of the other record may contain. */
  lemma PayloadInjective(txn: string, binding: string, ts: int, chain: string,
                         txn': string, binding': string, ts': int, chain': string)
    requires SEPARATOR !in txn && SEPARATOR !in binding && SEPARATOR !in chain
    ensures SigningPayload(txn, binding, ts, chain) == SigningPayload(txn', binding', ts', chain')
            <==> txn == txn' && binding == binding' && ts == ts' && chain == chain'
  {
    if SigningPayload(txn, binding, ts, chain) == SigningPayload(txn', binding', ts', chain') {
      SeparatorsPayload(txn, binding, ts, chain);
      SeparatorsPayload(txn', binding', ts', chain');
      PayloadFromRight(txn, binding, ts, chain, txn', binding', ts', chain');
    }
  }

  ghost predicate SamePayload(txn: string, binding: string, ts: int, chain: string,
                              txn': string, binding': string, ts': int, chain': string) {
    SigningPayload(txn, binding, ts, chain) == SigningPayload(txn', binding', ts', chain')
  }

  // a separator can change sides between the id and the binding hash
  lemma SeparatorMoves(x: string, y: string, binding: string, ts: int, chain: string)
    ensures SamePayload(x + [SEPARATOR] + y, binding, ts, chain, x, y + [SEPARATOR] + binding, ts, chain)
  {
    var rest := Field(Dec(ts), chain);
    assert Field(x + [SEPARATOR] + y, Field(binding, rest)) == Field(x, Field(y + [SEPARATOR] + binding, rest));
  }

  /** For a record with a digest as chain hash, the payload has a single reading
      exactly when neither the id nor the binding hash contains the separator. */
  lemma PayloadReadsOnce(txn: string, binding: string, ts: int, chain: string)
    requires SEPARATOR !in chain
    ensures (forall txn', binding', ts', chain' | SamePayload(txn, binding, ts, chain, txn', binding', ts', chain') ::
               txn == txn' && binding == binding' && ts == ts' && chain == chain')
            <==> SEPARATOR !in txn && SEPARATOR !in binding
  {
    if SEPARATOR in txn {
      var i: nat :| i < |txn| && txn[i] == SEPARATOR;
      SplitId(txn, i, binding, ts, chain);
    } else if SEPARATOR in binding {
      var i: nat :| i < |binding| && binding[i] == SEPARATOR;
      SplitBinding(txn, binding, i, ts, chain);
    } else {
      forall txn', binding', ts', chain' | SamePayload(txn, binding, ts, chain, txn', binding', ts', chain')
        ensures txn == txn' && binding == binding' && ts == ts' && chain == chain'
      {
        PayloadInjective(txn, binding, ts, chain, txn', binding', ts', chain');
      }
    }
  }

  // a separator in the id can be read as its end
  lemma SplitId(txn: string, i: nat, binding: string, ts: int, chain: string)
    requires i < |txn| && txn[i] == SEPARATOR
    ensures SamePayload(txn, binding, ts, chain, txn[..i], txn[i + 1..] + [SEPARATOR] + binding, ts, chain)
    ensures txn[..i] != txn
  {
    assert txn == txn[..i] + [SEPARATOR] + txn[i + 1..];
    SeparatorMoves(txn[..i], txn[i + 1..], binding, ts, chain);
    assert |txn[..i]| < |txn|;
  }

  // and one in the binding hash as its beginning
  lemma SplitBinding(txn: string, binding: string, i: nat, ts: int, chain: string)
    requires i < |binding| && binding[i] == SEPARATOR
    ensures SamePayload(txn, binding, ts, chain, txn + [SEPARATOR] + binding[..i], binding[i + 1..], ts, chain)
    ensures binding[i + 1..] != binding
  {
    assert binding == binding[..i] + [SEPARATOR] + binding[i + 1..];
    SeparatorMoves(txn, binding[..i], binding[i + 1..], ts, chain);
    assert |binding[i + 1..]| < |binding|;
  }

  /** With the binding hash and the chain hash known, the payload determines the
      id and the timestamp - any id, separators included. */
  lemma PayloadOfLink(txn: string, ts: int, txn': string, ts': int, binding: string, chain: string)
    ensures SigningPayload(txn, binding, ts, chain) == SigningPayload(txn', binding, ts', chain)
            <==> txn == txn' && ts == ts'
  {
    if SigningPayload(txn, binding, ts, chain) == SigningPayload(txn', binding, ts', chain) {
      PayloadGrouped(txn, binding, ts, chain);
      PayloadGrouped(txn', binding, ts', chain);
      SameRest(Field(Field(txn, binding), Dec(ts)), Field(Field(txn', binding), Dec(ts')), chain);
      DecHasNoSeparator(ts);
      DecHasNoSeparator(ts');
      SplitLast(Field(txn, binding), Dec(ts), Field(txn', binding), Dec(ts'));
      SameRest(txn, txn', binding);
      DecInjective(ts, ts');
    }
  }

  // ---- where the fields stand ----

  // text from position at on is part
  predicate ReadsAt(text: string, at: nat, part: string) {
    at + |part| <= |text| && text[at..at + |part|] == part
  }

  /** The hashed text: the predecessor, the binding hash, the id, and the
      timestamp in decimal, in this order and with nothing between or behind. */
  lemma PreimageReads(prev: string, binding: string, txn: string, ts: int)
    ensures var text := ChainPreimage(prev, binding, txn, ts);
            && ReadsAt(text, 0, prev) && ReadsAt(text, |prev|, binding)
            && ReadsAt(text, |prev| + |binding|, txn)
            && Denotes(text[|prev| + |binding| + |txn|..], ts)
  {
    DecDenotes(ts);
    PartsRead(prev, binding, txn, Dec(ts));
  }

  lemma PartsRead(a: string, b: string, c: string, d: string)
    ensures var text := a + b + c + d;
            && ReadsAt(text, 0, a) && ReadsAt(text, |a|, b) && ReadsAt(text, |a| + |b|, c)
            && text[|a| + |b| + |c|..] == d
  {
  }

  lemma FieldReads(a: string, rest: string)
    ensures Field(a, rest)[..|a|] == a && Field(a, rest)[|a|] as int == 31 && Field(a, rest)[|a| + 1..] == rest
  {
  }

  /** The signed text: id, binding hash, decimal timestamp and chain hash, with
      the control character 31 between them. */
  lemma PayloadReads(txn: string, binding: string, ts: int, chain: string)
    ensures var text := SigningPayload(txn, binding, ts, chain);
            && text[..|txn|] == txn && text[|txn|] as int == 31
            && exists number :: Denotes(number, ts) && text[|txn| + 1..] == AfterId(binding, number, chain)
  {
    DecDenotes(ts);
    FieldReads(txn, Field(binding, Field(Dec(ts), chain)));
    assert Field(binding, Field(Dec(ts), chain)) == AfterId(binding, Dec(ts), chain);
  }

  // what follows the id and its separator
  function AfterId(binding: string, number: string, chain: string): string {
    binding + [31 as char] + number + [31 as char] + chain
  }

  /** A record without any field reads as empty texts and zeros. */
  lemma EmptyRecordReads(e: Envelope)
    requires e.txnId == e.bindingHash == e.prevHash == e.chainHash == None && e.seqNo == e.timestamp == None
    ensures e.Preimage() == "0" && e.Seq() == 0 && e.Chain() == ""
    ensures SigningPayload(e.Txn(), e.Binding(), e.Ts(), e.Chain())
         == [31 as char] + [31 as char] + "0" + [31 as char]
  {
  }

  /** The chain starts at 64 zeros. */
  lemma GenesisIsZeros()
    ensures |GENESIS| == 64 && forall i :: 0 <= i < 64 ==> GENESIS[i] == '0'
  {
  }

  // ---- what the chain pre-image determines ----

  /** Between records whose hashes have equal widths, the pre-image determines
      prev, the binding hash and the text txn_id followed by the timestamp - and
      nothing more. */
  lemma PreimageDetermines(prev: string, binding: string, txn: string, ts: int,
                           prev': string, binding': string, txn': string, ts': int)
    requires |prev| == |prev'| && |binding| == |binding'|
    ensures ChainPreimage(prev, binding, txn, ts) == ChainPreimage(prev', binding', txn', ts')
            <==> prev == prev' && binding == binding' && txn + Dec(ts) == txn' + Dec(ts')
  {
    assert ChainPreimage(prev, binding, txn, ts) == prev + (binding + (txn + Dec(ts)));
    assert ChainPreimage(prev', binding', txn', ts') == prev' + (binding' + (txn' + Dec(ts')));
    TwoParts(prev, binding + (txn + Dec(ts)), prev', binding' + (txn' + Dec(ts')));
    TwoParts(binding, txn + Dec(ts), binding', txn' + Dec(ts'));
  }

  /** Timestamps of equal width make the split unique as well. */
  lemma EqualWidthSplit(txn: string, ts: int, txn': string, ts': int)
    requires |Dec(ts)| == |Dec(ts')|
    ensures txn + Dec(ts) == txn' + Dec(ts') <==> txn == txn' && ts == ts'
  {
    TwoPartsRight(txn, Dec(ts), txn', Dec(ts'));
    if Dec(ts) == Dec(ts') { DecInjective(ts, ts'); }
  }

  // the same id-and-timestamp text
  ghost predicate SameReading(txn: string, ts: int, txn': string, ts': int) {
    txn + Dec(ts) == txn' + Dec(ts')
  }

  lemma DigitMoves(txn: string, ts: nat)
    requires ts >= 10
    ensures SameReading(txn, ts, txn + Dec(ts / 10), ts % 10)
  {
    assert DecNat(ts) == DecNat(ts / 10) + DecNat(ts % 10);
  }

  /** From ten on, all digits of a timestamp but the last can move into the id:
      the edited record keeps its chain hash, under every hash function. */
  lemma DigitShiftUndetected(H: Hash, prev: string, binding: string, txn: string, ts: nat)
    requires ts >= 10
    ensures ComputeChainHash(H, prev, binding, txn, ts)
         == ComputeChainHash(H, prev, binding, txn + Dec(ts / 10), ts % 10)
  {
    DigitMoves(txn, ts);
    PreimageDetermines(prev, binding, txn, ts, prev, binding, txn + Dec(ts / 10), ts % 10);
  }

  predicate IsDigit(c: char) {
    '0' <= c <= '9'
  }

  // the digits at the end of the text, if any, are all zeros
  predicate ZeroRun(s: string) {
    s == "" || !IsDigit(s[|s| - 1]) || (s[|s| - 1] == '0' && ZeroRun(s[..|s| - 1]))
  }

  lemma {:induction false} OnlyZeros(s: string, p: nat)
    requires ZeroRun(s) && p <= |s| && forall i :: p <= i < |s| ==> IsDigit(s[i])
    ensures forall i :: p <= i < |s| ==> s[i] == '0'
  {
    if p < |s| { OnlyZeros(s[..|s| - 1], p); }
  }

  lemma NumberInside(txn: string, d: nat, x: string, n: nat)
    requires n >= 10 && d < 10 && x + DecNat(n) == txn + DecNat(d)
    ensures |x| < |txn| && txn[|x|] != '0' && forall i :: |x| <= i < |txn| ==> IsDigit(txn[i])
  {
    LeadingDigit(n);
    var s := x + DecNat(n);
    assert |s| == |txn| + 1;
    forall i | |x| <= i < |txn| ensures txn[i] == DecNat(n)[i - |x|] { assert txn[i] == s[i]; }
  }

  // behind such a text a digit is not the end of a longer number
  lemma NoLongerNumber(txn: string, d: nat, x: string, n: nat)
    requires ZeroRun(txn) && d < 10 && x + DecNat(n) == txn + DecNat(d)
    ensures n == d && x == txn
  {
    if n >= 10 {
      NumberInside(txn, d, x, n);
      OnlyZeros(txn, |x|);
    } else {
      TwoPartsRight(x, DecNat(n), txn, DecNat(d));
      DecNatInjective(n, d);
    }
  }

  // otherwise it ends in the text of a positive number
  lemma {:induction false} EndsInNumber(s: string) returns (x: string, n: nat)
    requires !ZeroRun(s)
    ensures n > 0 && s == x + DecNat(n)
  {
    var front, last := s[..|s| - 1], s[|s| - 1];
    var d := DigitValue(last);
    assert s == front + [last] && Digit(d) == last;
    if last == '0' {
      var y, m := EndsInNumber(front);
      AppendDigit(m, 0);
      x, n := y, 10 * m;
      assert s == y + (DecNat(m) + [last]);
    } else {
      x, n := front, d;
    }
  }

  /** At a fixed predecessor and binding hash, and over non-negative timestamps, a
      record has a single reading exactly when its timestamp is one digit and no
      other digit than zero precedes it. */
  lemma SingleReading(txn: string, ts: nat)
    ensures (forall txn', ts' | ts' >= 0 && SameReading(txn, ts, txn', ts') :: txn == txn' && ts == ts')
            <==> ts <= 9 && ZeroRun(txn)
  {
    if ts >= 10 {
      DigitMoves(txn, ts);
    } else if !ZeroRun(txn) {
      var x, n := EndsInNumber(txn);
      AppendDigit(n, ts);
      assert txn + Dec(ts) == x + (DecNat(n) + [Digit(ts)]);
      assert SameReading(txn, ts, x, 10 * n + ts);
    } else {
      forall txn', ts' | ts' >= 0 && SameReading(txn, ts, txn', ts')
        ensures txn == txn' && ts == ts'
      {
        NoLongerNumber(txn, ts, txn', ts');
      }
    }
  }

  predicate EndsWithMinus(s: string) {
    s != "" && s[|s| - 1] == '-'
  }

  /** Over all timestamps a sign at the end of the id is a second reading too. */
  lemma SingleSignedReading(txn: string, ts: int)
    ensures (forall txn', ts' | SameReading(txn, ts, txn', ts') :: txn == txn' && ts == ts')
            <==> 0 <= ts <= 9 && ZeroRun(txn) && !(ts > 0 && EndsWithMinus(txn))
  {
    if ts < 0 {
      assert SameReading(txn, ts, txn + "-", -ts);
    } else if ts > 0 && EndsWithMinus(txn) {
      assert txn == txn[..|txn| - 1] + "-";
      assert SameReading(txn, ts, txn[..|txn| - 1], -ts);
    } else {
      SingleReading(txn, ts);
      if ts <= 9 && ZeroRun(txn) {
        forall txn', ts' | SameReading(txn, ts, txn', ts')
          ensures txn == txn' && ts == ts'
        {
          if ts' < 0 { NoNegativeReading(txn, ts, txn', ts'); }
        }
      }
    }
  }

  lemma NoNegativeReading(txn: string, ts: nat, txn': string, ts': int)
    requires ts <= 9 && ZeroRun(txn) && ts' < 0 && SameReading(txn, ts, txn', ts')
    ensures ts > 0 && EndsWithMinus(txn)
  {
    assert txn' + Dec(ts') == (txn' + "-") + DecNat(-ts');
    NoLongerNumber(txn, ts, txn' + "-", -ts');
  }

  // ---- readings of the whole pre-image ----

  lemma BoundaryText(prev: string, binding: string, x: string, txn: string, ts: int)
    ensures ChainPreimage(prev, binding, x + txn, ts) == ChainPreimage(prev, binding + x, txn, ts)
  {
  }

  /** No width is enforced on the binding hash: its end can move into the id, or
      the front of the id into it, under every hash function. */
  lemma BoundaryMoveUndetected(H: Hash, prev: string, binding: string, x: string, txn: string, ts: int)
    ensures ComputeChainHash(H, prev, binding, x + txn, ts) == ComputeChainHash(H, prev, binding + x, txn, ts)
  {
    BoundaryText(prev, binding, x, txn, ts);
  }

  // the same pre-image behind one predecessor
  ghost predicate SameBody(binding: string, txn: string, ts: int, binding': string, txn': string, ts': int) {
    binding + txn + Dec(ts) == binding' + txn' + Dec(ts')
  }

  /** Behind predecessors of equal width the pre-image determines the
      predecessor and the rest of the text. */
  lemma TextAfterPrev(prev: string, binding: string, txn: string, ts: int,
                      prev': string, binding': string, txn': string, ts': int)
    requires |prev| == |prev'|
    ensures ChainPreimage(prev, binding, txn, ts) == ChainPreimage(prev', binding', txn', ts')
            <==> prev == prev' && SameBody(binding, txn, ts, binding', txn', ts')
  {
    assert ChainPreimage(prev, binding, txn, ts) == prev + (binding + txn + Dec(ts));
    assert ChainPreimage(prev', binding', txn', ts') == prev' + (binding' + txn' + Dec(ts'));
    TwoParts(prev, binding + txn + Dec(ts), prev', binding' + txn' + Dec(ts'));
  }

  /** Between records behind one predecessor, and with nothing assumed of their
      widths, the pre-image has a single reading only if both texts are empty. */
  lemma SingleBody(binding: string, txn: string, ts: int)
    ensures (forall binding', txn', ts' | SameBody(binding, txn, ts, binding', txn', ts') ::
               binding == binding' && txn == txn' && ts == ts')
            <==> binding == "" && txn == "" && 0 <= ts <= 9
  {
    if binding != "" {
      BindingJoinsId(binding, txn, ts);
    } else if txn != "" {
      assert SameBody(binding, txn, ts, txn, "", ts);
    } else {
      EmptyBody(ts);
    }
  }

  lemma BindingJoinsId(binding: string, txn: string, ts: int)
    ensures SameBody(binding, txn, ts, "", binding + txn, ts)
  {
    assert "" + (binding + txn) == binding + txn;
  }

  lemma EmptyBody(ts: int)
    ensures (forall binding', txn', ts' | SameBody("", "", ts, binding', txn', ts') ::
               binding' == "" && txn' == "" && ts == ts')
            <==> 0 <= ts <= 9
  {
    SingleSignedReading("", ts);
    if 0 <= ts <= 9 {
      forall binding', txn', ts' | SameBody("", "", ts, binding', txn', ts')
        ensures binding' == "" && txn' == "" && ts == ts'
      {
        assert SameReading("", ts, binding' + txn', ts');
      }
    } else {
      var txn', ts' :| SameReading("", ts, txn', ts') && !(txn' == "" && ts' == ts);
      assert SameBody("", "", ts, "", txn', ts');
    }
  }
}
