/**
 The wire form of body ids: `body_<op>` or `body_<op>:<k>`, its parser, the interner that remembers
 split children, and the rewrite of body-bearing JSON fields.
 */
module BodyIdWire {
  import opened Decimal
  import opened Wrappers

  // ── Uuids as text ──────────────────────────────────────────────────────────

  type Nibble = n: nat | n < 16

  type Uuid = u: seq<Nibble> | |u| == 32
    witness [0, 0, 0, 0, 0, 0, 0, 0, 0, 0, 0, 0, 0, 0, 0, 0, 0, 0, 0, 0, 0, 0, 0, 0, 0, 0, 0, 0, 0, 0, 0, 0]

  function HexDigit(n: Nibble): char {
    if n < 10 then '0' + n as char else 'a' + (n - 10) as char
  }

  function HexValue(c: char): Option<Nibble> {
    if '0' <= c <= '9' then Some((c - '0') as int)
    else if 'a' <= c <= 'f' then Some((c - 'a') as int + 10)
    else if 'A' <= c <= 'F' then Some((c - 'A') as int + 10)
    else None
  }

  lemma HexRoundTrip(n: Nibble)
    ensures HexValue(HexDigit(n)) == Some(n)
  {
  }

  /** Where nibble `i` stands in the hyphenated form, and which nibble stands at `j`. */
  function PlaceOf(i: nat): nat {
    if i < 8 then i else if i < 12 then i + 1 else if i < 16 then i + 2 else if i < 20 then i + 3 else i + 4
  }

  function SamePlace(i: nat): nat {
    i
  }

  predicate Hyphen(j: nat) {
    j == 8 || j == 13 || j == 18 || j == 23
  }

  function NibbleAt(j: nat): nat
    requires !Hyphen(j)
  {
    if j < 8 then j else if j < 13 then j - 1 else if j < 18 then j - 2 else if j < 23 then j - 3 else j - 4
  }

  /** The hyphenated lower-case form. */
  function Display(u: Uuid): (s: string)
    ensures |s| == 36
  {
    seq(36, j requires 0 <= j < 36 => if Hyphen(j) then '-' else HexDigit(u[NibbleAt(j)]))
  }

  function ParseNibbles(s: string, place: nat -> nat): Option<Uuid>
    requires forall i: nat :: i < 32 ==> place(i) < |s|
  {
    if forall i: nat :: i < 32 ==> HexValue(s[place(i)]).Some?
    then Some(seq(32, i requires 0 <= i < 32 => HexValue(s[place(i)]).value))
    else None
  }

  function ParseHyphenated(s: string): Option<Uuid>
    requires |s| == 36
  {
    if s[8] == '-' && s[13] == '-' && s[18] == '-' && s[23] == '-' then ParseNibbles(s, PlaceOf) else None
  }

  const URN := "urn:uuid:"

  /** Plain digits, hyphenated, in braces, or as a URN; digits of either case. */
  function ParseUuid(s: string): Option<Uuid> {
    if |s| == 32 then ParseNibbles(s, SamePlace)
    else if |s| == 36 then ParseHyphenated(s)
    else if |s| == 38 && s[0] == '{' && s[37] == '}' then ParseHyphenated(s[1..37])
    else if |s| == 45 && s[..9] == URN then ParseHyphenated(s[9..])
    else None
  }

  lemma UuidRoundTrip(u: Uuid)
    ensures ParseUuid(Display(u)) == Some(u)
  {
    var s := Display(u);
    forall i: nat | i < 32
      ensures HexValue(s[PlaceOf(i)]) == Some(u[i])
    {
      assert !Hyphen(PlaceOf(i)) && NibbleAt(PlaceOf(i)) == i;
      HexRoundTrip(u[i]);
    }
    assert ParseUuid(s).value == u;
  }

  /** A place in the hyphenated form: 8, 4, 4, 4 and 12 digits. */
  function DigitPlace(i: nat): nat {
    i + if i < 8 then 0 else if i < 12 then 1 else if i < 16 then 2 else if i < 20 then 3 else 4
  }

  /** A uuid is written in lower-case digits, with hyphens after 8, 12, 16 and 20 of them. */
  lemma DisplayExactly(u: Uuid)
    ensures var s := Display(u);
      && |s| == 36 && s[8] == '-' && s[13] == '-' && s[18] == '-' && s[23] == '-'
      && forall i: nat :: i < 32 ==> s[DigitPlace(i)] == "0123456789abcdef"[u[i]]
  {
    forall i: nat | i < 32
      ensures Display(u)[DigitPlace(i)] == "0123456789abcdef"[u[i]]
    {
      assert !Hyphen(DigitPlace(i)) && NibbleAt(DigitPlace(i)) == i;
      DigitIs(u[i]);
    }
  }

  lemma DigitIs(n: Nibble)
    ensures HexDigit(n) == "0123456789abcdef"[n]
  {
  }

  lemma ValueIs(c: char, n: Nibble)
    ensures HexValue(c) == Some(n) <==> c == "0123456789abcdef"[n] || c == "0123456789ABCDEF"[n]
  {
  }

  /** The text has the digits of `u` at the given places, in either case. */
  ghost predicate Digit32(s: string, u: Uuid, place: nat -> nat) {
    forall i: nat :: i < 32 ==>
      place(i) < |s| && (s[place(i)] == "0123456789abcdef"[u[i]] || s[place(i)] == "0123456789ABCDEF"[u[i]])
  }

  ghost predicate SpellsHyphenated(s: string, u: Uuid) {
    && |s| == 36 && s[8] == '-' && s[13] == '-' && s[18] == '-' && s[23] == '-'
    && Digit32(s, u, DigitPlace)
  }

  /** The accepted spellings: plain digits, hyphenated, hyphenated in braces, or hyphenated behind `urn:uuid:`. */
  ghost predicate Spells(s: string, u: Uuid) {
    || (|s| == 32 && Digit32(s, u, i => i))
    || SpellsHyphenated(s, u)
    || (|s| == 38 && s[0] == '{' && s[37] == '}' && SpellsHyphenated(s[1..37], u))
    || (|s| == 45 && s[..9] == "urn:uuid:" && SpellsHyphenated(s[9..], u))
  }

  lemma NibblesExactly(s: string, u: Uuid, place: nat -> nat, place': nat -> nat)
    requires forall i: nat :: i < 32 ==> place(i) < |s| && place'(i) == place(i)
    ensures ParseNibbles(s, place) == Some(u) <==> Digit32(s, u, place')
  {
    forall i: nat | i < 32
      ensures HexValue(s[place(i)]) == Some(u[i]) <==>
        s[place(i)] == "0123456789abcdef"[u[i]] || s[place(i)] == "0123456789ABCDEF"[u[i]]
    {
      ValueIs(s[place(i)], u[i]);
    }
    if ParseNibbles(s, place) == Some(u) {
      var v := ParseNibbles(s, place).value;
      assert forall i: nat :: i < 32 ==> v[i] == HexValue(s[place(i)]).value;
    }
    if Digit32(s, u, place') {
      assert ParseNibbles(s, place).value == u;
    }
  }

  lemma HyphenatedExactly(s: string, u: Uuid)
    requires |s| == 36
    ensures ParseHyphenated(s) == Some(u) <==> SpellsHyphenated(s, u)
  {
    NibblesExactly(s, u, PlaceOf, DigitPlace);
  }

  /** A text is read as a uuid exactly if it is one of its accepted spellings. */
  lemma ParseExactly(s: string, u: Uuid)
    ensures ParseUuid(s) == Some(u) <==> Spells(s, u)
  {
    hide ParseNibbles, ParseHyphenated, SpellsHyphenated, Digit32;
    if |s| == 32 {
      NibblesExactly(s, u, SamePlace, i => i);
    } else if |s| == 36 {
      HyphenatedExactly(s, u);
    } else if |s| == 38 {
      HyphenatedExactly(s[1..37], u);
    } else if |s| == 45 {
      HyphenatedExactly(s[9..], u);
    }
    HyphenatedIsLong(s, u);
  }

  lemma HyphenatedIsLong(s: string, u: Uuid)
    ensures SpellsHyphenated(s, u) ==> |s| == 36
  {
  }

  // ── Ordinals as text ───────────────────────────────────────────────────────

  const USIZE := 0x1_0000_0000_0000_0000

  /** A machine word in decimal: an optional plus, at least one digit, and no overflow. */
  function ParseUsize(s: string): Option<nat> {
    var digits := if s != "" && s[0] == '+' then s[1..] else s;
    if digits == "" then None
    else
      match Digits(digits)
      case Some(n) => if n < USIZE then Some(n) else None
      case None => None
  }

  lemma UsizeRoundTrip(k: nat)
    requires k < USIZE
    ensures ParseUsize(ShowNat(k)) == Some(k)
  {
    DigitsShown(k);
  }

  // ── Body ids ───────────────────────────────────────────────────────────────

  /** A split child: its op and its ordinal. */
  datatype Child = Child(op: Uuid, k: nat)

  type Interner = map<Uuid, string>

  const PREFIX := "body_"

  function ChildForm(c: Child): string {
    PREFIX + Display(c.op) + ":" + ShowNat(c.k)
  }

  /** Records a child under its derived id; `derive` is a digest this model leaves abstract. */
  function Intern(derive: Child -> Uuid, m: Interner, c: Child): Interner {
    m[derive(c) := ChildForm(c)]
  }

  function BodyIdWire(m: Interner, b: Uuid): string {
    if b in m then m[b] else PREFIX + Display(b)
  }

  function FirstColon(s: string): (r: Option<nat>)
    ensures r.None? <==> ':' !in s
    ensures r.Some? ==> r.value < |s| && s[r.value] == ':' && ':' !in s[..r.value]
  {
    if s == "" then None
    else if s[0] == ':' then Some(0)
    else
      match FirstColon(s[1..])
      case None => None
      case Some(i) =>
        assert s[..i + 1] == [s[0]] + s[1..][..i];
        Some(i + 1)
  }

  predicate HasPrefix(s: string) {
    |s| >= 5 && s[..5] == PREFIX
  }

  /** What the text names, before anything is interned. */
  datatype Name = Plain(body: Uuid) | Split(child: Child)

  function ReadName(s: string): Option<Name> {
    if !HasPrefix(s) then None
    else
      var rest := s[5..];
      match FirstColon(rest)
      case Some(i) =>
        (match (ParseUuid(rest[..i]), ParseUsize(rest[i + 1..]))
         case (Some(op), Some(k)) => Some(Split(Child(op, k)))
         case _ => None)
      case None =>
        match ParseUuid(rest)
        case Some(u) => Some(Plain(u))
        case None => None
  }

  /** The id, and the interner after it: a split child is interned as it is parsed. */
  function ParseBodyId(derive: Child -> Uuid, m: Interner, s: string): Option<(Uuid, Interner)> {
    match ReadName(s)
    case None => None
    case Some(Plain(u)) => Some((u, m))
    case Some(Split(c)) => Some((derive(c), Intern(derive, m, c)))
  }

  function SplitParts(m: Interner, b: Uuid): Option<Child> {
    if b !in m || !HasPrefix(m[b]) then None
    else
      var rest := m[b][5..];
      match FirstColon(rest)
      case None => None
      case Some(i) =>
        match (ParseUuid(rest[..i]), ParseUsize(rest[i + 1..]))
        case (Some(op), Some(k)) => Some(Child(op, k))
        case _ => None
  }

  /** An interned id is written as it was interned, any other behind the prefix; a child as op and ordinal. */
  lemma WireExactly(derive: Child -> Uuid, m: Interner, b: Uuid, c: Child)
    ensures b in m ==> BodyIdWire(m, b) == m[b]
    ensures b !in m ==> BodyIdWire(m, b) == "body_" + Display(b)
    ensures Intern(derive, m, c) == m[derive(c) := "body_" + Display(c.op) + ":" + ShowNat(c.k)]
  {
  }

  /** A body id is the prefix and a uuid, or the prefix, a uuid, a colon and a machine word. */
  lemma NameExactly(s: string, rest: string, op: string, k: string)
    ensures !(|s| >= 5 && s[..5] == "body_") ==> ReadName(s) == None
    ensures s == "body_" + rest && ':' !in rest ==>
      ReadName(s) == match ParseUuid(rest) case Some(u) => Some(Plain(u)) case None => None
    ensures s == "body_" + op + ":" + k && ':' !in op ==>
      ReadName(s) ==
        match (ParseUuid(op), ParseUsize(k))
        case (Some(u), Some(n)) => Some(Split(Child(u, n)))
        case _ => None
  {
    if s == "body_" + rest && ':' !in rest {
      assert s[..5] == "body_" && s[5..] == rest;
    }
    if s == "body_" + op + ":" + k && ':' !in op {
      var tail := op + ":" + k;
      assert s == "body_" + tail;
      assert s[..5] == "body_" && s[5..] == tail;
      ColonAfter(op, k);
      assert tail[..|op|] == op && tail[|op| + 1..] == k;
    }
  }

  /** What is interned by reading: a child under its derived id, and nothing for a plain id. */
  lemma ParseInterns(derive: Child -> Uuid, m: Interner, s: string)
    ensures match ReadName(s)
      case None => ParseBodyId(derive, m, s) == None
      case Some(Plain(u)) => ParseBodyId(derive, m, s) == Some((u, m))
      case Some(Split(c)) =>
        ParseBodyId(derive, m, s)
        == Some((derive(c), m[derive(c) := "body_" + Display(c.op) + ":" + ShowNat(c.k)]))
  {
  }

  // ── Reading back what was written ──────────────────────────────────────────

  lemma DisplayPlain(u: Uuid)
    ensures ':' !in Display(u)
  {
  }

  lemma ColonAfter(a: string, b: string)
    requires ':' !in a
    ensures FirstColon(a + ":" + b) == Some(|a|)
  {
    var s := a + ":" + b;
    assert s[|a|] == ':';
    assert s[..|a|] == a;
  }

  lemma ChildReads(c: Child)
    requires c.k < USIZE
    ensures ReadName(ChildForm(c)) == Some(Split(c))
  {
    var op, k := Display(c.op), ShowNat(c.k);
    var s := ChildForm(c);
    var rest := op + ":" + k;
    assert s == PREFIX + rest;
    assert s[..5] == PREFIX && s[5..] == rest;
    DisplayPlain(c.op);
    ColonAfter(op, k);
    assert rest[..36] == op && rest[37..] == k;
    UuidRoundTrip(c.op);
    UsizeRoundTrip(c.k);
  }

  lemma PlainReads(u: Uuid)
    ensures ReadName(PREFIX + Display(u)) == Some(Plain(u))
  {
    var s := PREFIX + Display(u);
    assert s[..5] == PREFIX && s[5..] == Display(u);
    DisplayPlain(u);
    UuidRoundTrip(u);
  }

  // ── Interner states ────────────────────────────────────────────────────────

  function Interned(derive: Child -> Uuid, cs: seq<Child>): Interner {
    if cs == [] then map[] else Intern(derive, Interned(derive, cs[..|cs| - 1]), cs[|cs| - 1])
  }

  ghost predicate Words(cs: seq<Child>) {
    forall i :: 0 <= i < |cs| ==> cs[i].k < USIZE
  }

  /** The last child interned under an id. */
  ghost predicate LastUnder(derive: Child -> Uuid, cs: seq<Child>, i: nat)
    requires i < |cs|
  {
    forall j :: i < j < |cs| ==> derive(cs[j]) != derive(cs[i])
  }

  /** Every entry is the form of a child interned under that id, the last one. */
  lemma {:induction false} EntryOf(derive: Child -> Uuid, cs: seq<Child>, b: Uuid)
    ensures b in Interned(derive, cs) <==> exists i :: 0 <= i < |cs| && derive(cs[i]) == b
    ensures b in Interned(derive, cs) ==>
              exists i :: 0 <= i < |cs| && derive(cs[i]) == b && LastUnder(derive, cs, i)
                && Interned(derive, cs)[b] == ChildForm(cs[i])
  {
    if cs != [] {
      var n := |cs| - 1;
      EntryOf(derive, cs[..n], b);
      if derive(cs[n]) == b {
        assert LastUnder(derive, cs, n);
      } else if b in Interned(derive, cs) {
        var i :| 0 <= i < n && derive(cs[..n][i]) == b && LastUnder(derive, cs[..n], i)
          && Interned(derive, cs[..n])[b] == ChildForm(cs[..n][i]);
        assert LastUnder(derive, cs, i) by {
          assert forall j :: i < j < n ==> cs[..n][j] == cs[j];
        }
        assert derive(cs[i]) == b;
      }
      if exists i :: 0 <= i < n && derive(cs[i]) == b {
        var i :| 0 <= i < n && derive(cs[i]) == b;
        assert derive(cs[..n][i]) == b;
      }
    }
  }

  /** In every interner state, what an id is written as reads back to it, and interns nothing new. */
  lemma WireReadsBack(derive: Child -> Uuid, cs: seq<Child>, b: Uuid)
    requires Words(cs)
    ensures var m := Interned(derive, cs); ParseBodyId(derive, m, BodyIdWire(m, b)) == Some((b, m))
  {
    var m := Interned(derive, cs);
    EntryOf(derive, cs, b);
    if b in m {
      var i :| 0 <= i < |cs| && derive(cs[i]) == b && LastUnder(derive, cs, i) && m[b] == ChildForm(cs[i]);
      ChildReads(cs[i]);
      assert m[b := m[b]] == m;
    } else {
      PlainReads(b);
    }
  }

  function CanonicalForm(name: Name): string {
    match name
    case Plain(u) => PREFIX + Display(u)
    case Split(c) => ChildForm(c)
  }

  /**
   Parsing any accepted spelling and writing the id back gives its canonical spelling, unless a plain
   id is one that a split child was interned under.
   */
  lemma ParseCanonicalises(derive: Child -> Uuid, m: Interner, s: string)
    requires ReadName(s).Some?
    ensures var name := ReadName(s).value;
      var (b, m') := ParseBodyId(derive, m, s).value;
      BodyIdWire(m', b) == CanonicalForm(name) <==> name.Split? || b !in m || m[b] == CanonicalForm(name)
    ensures ReadName(s).value.Split? ==> ReadName(s).value.child.k < USIZE
    ensures ReadName(CanonicalForm(ReadName(s).value)) == ReadName(s)
  {
    match ReadName(s).value {
      case Plain(u) => PlainReads(u);
      case Split(c) => ChildReads(c);
    }
  }

  /** Two children never share a derived id among those interned. */
  ghost predicate DerivesApart(derive: Child -> Uuid, cs: seq<Child>) {
    forall i, j :: 0 <= i < |cs| && 0 <= j < |cs| && derive(cs[i]) == derive(cs[j]) ==> cs[i] == cs[j]
  }

  /** Every interned child is recovered from its id exactly when no two of them share one. */
  lemma SplitPartsRecover(derive: Child -> Uuid, cs: seq<Child>)
    requires Words(cs)
    ensures (forall i :: 0 <= i < |cs| ==> SplitParts(Interned(derive, cs), derive(cs[i])) == Some(cs[i])) <==>
      DerivesApart(derive, cs)
  {
    hide SplitParts, Interned, DerivesApart;
    if DerivesApart(derive, cs) {
      forall i | 0 <= i < |cs|
        ensures SplitParts(Interned(derive, cs), derive(cs[i])) == Some(cs[i])
      {
        ApartRecovered(derive, cs, i);
      }
    }
    if forall i :: 0 <= i < |cs| ==> SplitParts(Interned(derive, cs), derive(cs[i])) == Some(cs[i]) {
      RecoveredApart(derive, cs);
    }
  }

  lemma ApartRecovered(derive: Child -> Uuid, cs: seq<Child>, i: nat)
    requires Words(cs) && i < |cs| && DerivesApart(derive, cs)
    ensures SplitParts(Interned(derive, cs), derive(cs[i])) == Some(cs[i])
  {
    hide SplitParts, Interned;
    LastRecovered(derive, cs, i);
  }

  lemma RecoveredApart(derive: Child -> Uuid, cs: seq<Child>)
    requires forall i :: 0 <= i < |cs| ==> SplitParts(Interned(derive, cs), derive(cs[i])) == Some(cs[i])
    ensures DerivesApart(derive, cs)
  {
    hide SplitParts, Interned;
  }

  lemma LastRecovered(derive: Child -> Uuid, cs: seq<Child>, i: nat)
    requires Words(cs) && i < |cs|
    ensures exists j ::
      && 0 <= j < |cs| && derive(cs[j]) == derive(cs[i])
      && SplitParts(Interned(derive, cs), derive(cs[i])) == Some(cs[j])
  {
    var m, b := Interned(derive, cs), derive(cs[i]);
    EntryOf(derive, cs, b);
    var j :| 0 <= j < |cs| && derive(cs[j]) == b && LastUnder(derive, cs, j) && m[b] == ChildForm(cs[j]);
    EntryParts(m, b, cs[j]);
    assert derive(cs[j]) == derive(cs[i]) && SplitParts(m, derive(cs[i])) == Some(cs[j]);
  }

  lemma EntryParts(m: Interner, b: Uuid, c: Child)
    requires b in m && m[b] == ChildForm(c) && c.k < USIZE
    ensures SplitParts(m, b) == Some(c)
  {
    ChildReads(c);
  }

  /** Interning one more child leaves every entry as it was exactly when it shares no id with another child. */
  lemma InternKeepsEntries(derive: Child -> Uuid, cs: seq<Child>, c: Child)
    requires Words(cs) && c.k < USIZE && DerivesApart(derive, cs)
    ensures var m := Interned(derive, cs);
      Kept(m, Intern(derive, m, c)) <==> DerivesApart(derive, cs + [c])
  {
    hide Interned, Intern, DerivesApart, ChildForm, Kept;
    var m, d := Interned(derive, cs), derive(c);
    ApartMore(derive, cs, c);
    InternKeeps(derive, m, c);
    forall i | 0 <= i < |cs|
      ensures derive(cs[i]) == d ==> d in m && (m[d] == ChildForm(c) <==> cs[i] == c)
    {
      ApartEntry(derive, cs, i);
      ChildReads(cs[i]);
      ChildReads(c);
    }
    if d in m {
      EntryOf(derive, cs, d);
      var i :| 0 <= i < |cs| && derive(cs[i]) == d;
    }
  }

  ghost predicate Kept(m: Interner, m': Interner) {
    forall b :: b in m ==> b in m' && m'[b] == m[b]
  }

  lemma InternKeeps(derive: Child -> Uuid, m: Interner, c: Child)
    ensures Kept(m, Intern(derive, m, c)) <==> (derive(c) in m ==> m[derive(c)] == ChildForm(c))
  {
    hide ChildForm;
  }

  lemma ApartMore(derive: Child -> Uuid, cs: seq<Child>, c: Child)
    requires DerivesApart(derive, cs)
    ensures DerivesApart(derive, cs + [c]) <==> forall i :: 0 <= i < |cs| && derive(cs[i]) == derive(c) ==> cs[i] == c
  {
    var ds := cs + [c];
    assert forall i :: 0 <= i < |ds| ==> ds[i] == if i < |cs| then cs[i] else c;
    if DerivesApart(derive, ds) {
      forall i | 0 <= i < |cs| && derive(cs[i]) == derive(c)
        ensures cs[i] == c
      {
        assert ds[i] == cs[i] && ds[|cs|] == c;
      }
    }
  }

  lemma ApartEntry(derive: Child -> Uuid, cs: seq<Child>, i: nat)
    requires i < |cs| && DerivesApart(derive, cs)
    ensures derive(cs[i]) in Interned(derive, cs) && Interned(derive, cs)[derive(cs[i])] == ChildForm(cs[i])
  {
    hide Interned, ChildForm;
    EntryOf(derive, cs, derive(cs[i]));
  }

  // ── Body-bearing JSON fields ───────────────────────────────────────────────

  datatype Json =
    | Null
    | Bool(b: bool)
    | Number(n: real)
    | Text(s: string)
    | Array(items: seq<Json>)
    | Object(fields: seq<(string, Json)>)

  predicate BodyKey(key: string) {
    key == "bodyId" || (|key| >= 6 && key[|key| - 6..] == "BodyId")
  }

  /** The body keys: `bodyId`, and every key that ends in `BodyId`. */
  lemma BodyKeyExactly(key: string)
    ensures BodyKey(key) <==> key == "bodyId" || exists p :: key == p + "BodyId"
  {
    if |key| >= 6 && key[|key| - 6..] == "BodyId" {
      assert key == key[..|key| - 6] + "BodyId";
    }
    forall p | key == p + "BodyId"
      ensures BodyKey(key)
    {
      assert key[|key| - 6..] == "BodyId";
    }
  }

  function RewriteText(m: Interner, v: Json): Json {
    match v
    case Text(s) => (match ParseUuid(s) case Some(u) => Text(BodyIdWire(m, u)) case None => v)
    case _ => v
  }

  /** Uuid strings under body keys become wire forms; an `intent` subtree is left as it is. */
  function ToWireBodyForm(m: Interner, v: Json): Json {
    match v
    case Array(items) => Array(seq(|items|, i requires 0 <= i < |items| => ToWireBodyForm(m, items[i])))
    case Object(fields) =>
      Object(seq(|fields|, i requires 0 <= i < |fields| =>
        var (key, field) := fields[i];
        (key, if key == "intent" then field
              else if BodyKey(key) && field.Text? then RewriteText(m, field)
              else ToWireBodyForm(m, field))))
    case _ => v
  }

  // ── What the rewrite touches, place by place ───────────────────────────────

  /** The `i`-th child of a value, and the key it stands under if it stands under one. */
  function ChildAt(v: Json, i: nat): Option<(Option<string>, Json)> {
    match v
    case Array(items) => if i < |items| then Some((None, items[i])) else None
    case Object(fields) => if i < |fields| then Some((Some(fields[i].0), fields[i].1)) else None
    case _ => None
  }

  function At(v: Json, path: seq<nat>): Option<Json> {
    if path == [] then Some(v)
    else
      match ChildAt(v, path[0])
      case None => None
      case Some((_, child)) => At(child, path[1..])
  }

  /** Some key on the way is `intent`. */
  function InIntent(v: Json, path: seq<nat>): bool {
    if path == [] then false
    else
      match ChildAt(v, path[0])
      case None => false
      case Some((key, child)) => key == Some("intent") || InIntent(child, path[1..])
  }

  /** The place stands directly under a body key. */
  function UnderBodyKey(v: Json, path: seq<nat>): bool {
    if path == [] then false
    else
      match ChildAt(v, path[0])
      case None => false
      case Some((key, child)) => if |path| == 1 then key.Some? && BodyKey(key.value) else UnderBodyKey(child, path[1..])
  }

  /** Values alike at the top: the same kind, with as many children under the same keys. */
  predicate Alike(v: Json, w: Json) {
    match v
    case Array(items) => w.Array? && |w.items| == |items|
    case Object(fields) => w.Object? && |w.fields| == |fields| && forall i :: 0 <= i < |fields| ==>
      fields[i].0 == w.fields[i].0
    case Text(_) => w.Text?
    case _ => v == w
  }

  function Expected(m: Interner, v: Json, path: seq<nat>, s: string): string {
    if !InIntent(v, path) && UnderBodyKey(v, path) && ParseUuid(s).Some? then BodyIdWire(m, ParseUuid(s).value) else s
  }

  /** A prefixed id is no uuid: its second character is no hexadecimal digit. */
  lemma PrefixedIsNoUuid(s: string)
    requires HasPrefix(s)
    ensures ParseUuid(s) == None
  {
    assert s[..5][0] == 'b' && s[..5][1] == 'o';
    assert HexValue(s[1]) == None;
    assert PlaceOf(1) == 1 && SamePlace(1) == 1;
    assert |s| == 45 ==> s[..9][0] == 'b' && URN[0] == 'u';
  }

  /**
   Every place keeps its kind and its keys, and its text unless that is a uuid directly under a body
   key outside every `intent`, which becomes the wire form.
   */
  lemma {:induction false} RewriteTouches(m: Interner, v: Json, path: seq<nat>)
    ensures var w := ToWireBodyForm(m, v);
      && (At(v, path).Some? <==> At(w, path).Some?)
      && (At(v, path).Some? ==> Alike(At(v, path).value, At(w, path).value))
      && (At(v, path).Some? && At(v, path).value.Text? ==>
        At(w, path).value.s == Expected(m, v, path, At(v, path).value.s))
      && (At(v, path).Some? && InIntent(v, path) ==> At(w, path) == At(v, path))
    decreases path
  {
    if path != [] && ChildAt(v, path[0]).Some? {
      var (key, child) := ChildAt(v, path[0]).value;
      RewriteChild(m, v, path[0]);
      var child' := ChildAt(ToWireBodyForm(m, v), path[0]).value.1;
      RewriteTouches(m, child, path[1..]);
      if |path| == 1 {
        assert path[1..] == [];
      } else if child.Text? {
        assert ChildAt(child, path[1..][0]) == None;
      }
    } else if path != [] {
      RewriteChild(m, v, path[0]);
    }
  }

  lemma RewriteChild(m: Interner, v: Json, i: nat)
    ensures var w := ToWireBodyForm(m, v);
      match ChildAt(v, i)
      case None => ChildAt(w, i) == None
      case Some((key, child)) =>
        ChildAt(w, i) == Some((key,
          if key == Some("intent") then child
          else if key.Some? && BodyKey(key.value) && child.Text? then RewriteText(m, child)
          else ToWireBodyForm(m, child)))
  {
  }

  /** What the interner holds is prefixed, as every reachable state's entries are. */
  ghost predicate Prefixed(m: Interner) {
    forall b :: b in m ==> HasPrefix(m[b])
  }

  lemma InternedPrefixed(derive: Child -> Uuid, cs: seq<Child>)
    ensures Prefixed(Interned(derive, cs))
  {
    forall b | b in Interned(derive, cs)
      ensures HasPrefix(Interned(derive, cs)[b])
    {
      EntryOf(derive, cs, b);
    }
  }

  lemma RewrittenTextFixed(m: Interner, m': Interner, v: Json)
    requires Prefixed(m)
    ensures RewriteText(m', RewriteText(m, v)) == RewriteText(m, v)
  {
    if v.Text? && ParseUuid(v.s).Some? {
      var u := ParseUuid(v.s).value;
      assert u !in m ==> BodyIdWire(m, u)[..5] == PREFIX;
      PrefixedIsNoUuid(BodyIdWire(m, u));
    }
  }

  lemma {:induction false} RewrittenFixed(m: Interner, m': Interner, v: Json)
    requires Prefixed(m)
    ensures ToWireBodyForm(m', ToWireBodyForm(m, v)) == ToWireBodyForm(m, v)
  {
    var w := ToWireBodyForm(m, v);
    match v {
      case Array(items) =>
        forall i | 0 <= i < |items|
          ensures ToWireBodyForm(m', w).items[i] == w.items[i]
        {
          RewrittenFixed(m, m', items[i]);
        }
      case Object(fields) =>
        forall i | 0 <= i < |fields|
          ensures ToWireBodyForm(m', w).fields[i] == w.fields[i]
        {
          RewrittenTextFixed(m, m', fields[i].1);
          RewrittenFixed(m, m', fields[i].1);
          RewriteKeepsKind(m, fields[i].1);
        }
      case _ =>
    }
  }

  lemma RewriteKeepsKind(m: Interner, v: Json)
    ensures ToWireBodyForm(m, v).Text? <==> v.Text?
    ensures RewriteText(m, v).Text? <==> v.Text?
  {
  }

  /** In every reachable interner state, rewriting again changes nothing, even if more has been interned in between. */
  lemma RewriteIdempotent(derive: Child -> Uuid, cs: seq<Child>, m': Interner, v: Json)
    ensures var m := Interned(derive, cs);
      ToWireBodyForm(m', ToWireBodyForm(m, v)) == ToWireBodyForm(m, v)
  {
    InternedPrefixed(derive, cs);
    RewrittenFixed(Interned(derive, cs), m', v);
  }
}
