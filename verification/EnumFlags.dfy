/** The `EnumFlags` attribute: flag names to bit masks and back. */
module EnumFlags {
  import opened Bytes
  import opened Values
  import opened Decimals

  /** A 32-bit word, as the set of the bits that are 1: `|`, `&` and `& ~` are `+`, `*` and `-`. */
  type Word = w: set<nat> | forall k | k in w :: k < 32

  /** The bits of `n` from position `low` on, and the number they make up. */
  function BitsFrom(n: nat, low: nat): (w: Word)
    requires low <= 32
    ensures forall k | k in w :: low <= k
    decreases 32 - low
  {
    if low == 32 then {} else (if n % 2 == 1 then {low} else {}) + BitsFrom(n / 2, low + 1)
  }

  function NumberFrom(w: Word, low: nat): nat
    requires low <= 32
    decreases 32 - low
  {
    if low == 32 then 0 else (if low in w then 1 else 0) + 2 * NumberFrom(w, low + 1)
  }

  function Span(low: nat): nat
    requires low <= 32
    decreases 32 - low
  {
    if low == 32 then 1 else 2 * Span(low + 1)
  }

  lemma SpanOfWord()
    ensures Span(0) == TWO_TO_THE_32
  {
    assert Span(28) == 16;
    assert Span(24) == 16 * Span(28);
    assert Span(20) == 16 * Span(24);
    assert Span(16) == 16 * Span(20);
    assert Span(12) == 16 * Span(16);
    assert Span(8) == 16 * Span(12);
    assert Span(4) == 16 * Span(8);
    assert Span(0) == 16 * Span(4);
  }

  lemma {:induction false} NumberBelowSpan(w: Word, low: nat)
    requires low <= 32
    ensures NumberFrom(w, low) < Span(low)
    decreases 32 - low
  {
    if low < 32 {
      NumberBelowSpan(w, low + 1);
    }
  }

  function Bits(i: int32): Word {
    BitsFrom(Pattern(i), 0)
  }

  function Number(w: Word): int32 {
    NumberBelowSpan(w, 0);
    SpanOfWord();
    Signed(NumberFrom(w, 0))
  }

  lemma {:induction false} BitsOfNumber(w: Word, low: nat)
    requires low <= 32
    ensures BitsFrom(NumberFrom(w, low), low) == set k | k in w && low <= k
    decreases 32 - low
  {
    if low < 32 {
      BitsOfNumber(w, low + 1);
    }
  }

  lemma {:induction false} NumberOfBits(n: nat, low: nat, w: Word)
    requires low <= 32 && n < Span(low)
    requires forall k | low <= k :: k in w <==> k in BitsFrom(n, low)
    ensures NumberFrom(w, low) == n
    decreases 32 - low
  {
    if low < 32 {
      NumberOfBits(n / 2, low + 1, w);
    }
  }

  /** Words and 32-bit integers are the same thing. */
  lemma WordRoundTrip(w: Word, i: int32)
    ensures Bits(Number(w)) == w && Number(Bits(i)) == i
  {
    hide BitsFrom, NumberFrom, Span;
    NumberBelowSpan(w, 0);
    SpanOfWord();
    BitsOfNumber(w, 0);
    assert (set k | k in w && 0 <= k) == w;
    assert Pattern(Signed(NumberFrom(w, 0))) == NumberFrom(w, 0);
    NumberOfBits(Pattern(i), 0, Bits(i));
  }

  datatype Entry = Entry(name: string, value: int32)
  type Table = seq<Entry>

  // ---- Formatting ----

  function Mask(e: Entry): Word {
    Bits(e.value)
  }

  predicate Applies(e: Entry, remaining: Word) {
    Mask(e) != {} && remaining * Mask(e) == Mask(e)
  }

  /** The entries named for `remaining`, in table order. */
  function Picked(table: Table, remaining: Word): Table {
    if table == [] then []
    else if Applies(table[0], remaining) then [table[0]] + Picked(table[1..], remaining - Mask(table[0]))
    else Picked(table[1..], remaining)
  }

  /** The bits no picked entry covers. */
  function Rest(table: Table, remaining: Word): Word {
    if table == [] then remaining
    else if Applies(table[0], remaining) then Rest(table[1..], remaining - Mask(table[0]))
    else Rest(table[1..], remaining)
  }

  function Append(out: string, token: string): string {
    if out == "" then token else out + " | " + token
  }

  function AppendNames(out: string, picked: Table): string
    decreases |picked|
  {
    if picked == [] then out else AppendNames(Append(out, picked[0].name), picked[1..])
  }

  function Format(table: Table, v: int32): string {
    var w := Bits(v);
    var names := AppendNames("", Picked(table, w));
    var out := if Rest(table, w) != {} then Append(names, ToText(Number(Rest(table, w)))) else names;
    if out == "" then ToText(v) else out
  }

  method FormatLoop(table: Table, v: int32) returns (out: string)
    ensures out == Format(table, v)
  {
    hide Append, Applies, Bits, Number;
    out := "";
    ghost var w := Bits(v);
    var remaining: Word := Bits(v);
    for i := 0 to |table|
      invariant Rest(table[i..], remaining) == Rest(table, w)
      invariant AppendNames(out, Picked(table[i..], remaining)) == AppendNames("", Picked(table, w))
    {
      var e := table[i];
      assert table[i..][0] == e && table[i..][1..] == table[i + 1..];
      if Applies(e, remaining) {
        NamesStep(out, e, Picked(table[i + 1..], remaining - Mask(e)));
        out := Append(out, e.name);
        remaining := remaining - Mask(e);
      }
    }
    if remaining != {} {
      out := Append(out, ToText(Number(remaining)));
    }
    if out == "" {
      out := ToText(v);
    }
  }

  lemma NamesStep(out: string, e: Entry, rest: Table)
    ensures AppendNames(out, [e] + rest) == AppendNames(Append(out, e.name), rest)
  {
    assert ([e] + rest)[1..] == rest;
  }

  // ---- Parsing ----

  predicate Blank(c: char) {
    c == ' ' || c == '\t'
  }

  function TrimLeft(s: string): string {
    if s != "" && Blank(s[0]) then TrimLeft(s[1..]) else s
  }

  function TrimRight(s: string): string {
    if s != "" && Blank(s[|s| - 1]) then TrimRight(s[..|s| - 1]) else s
  }

  function Find(table: Table, name: string): Option<Word> {
    if table == [] then None
    else if table[0].name == name then Some(Mask(table[0]))
    else Find(table[1..], name)
  }

  /** A name stands for its mask, else a numeral for its value; anything else is skipped. */
  function TokenBits(table: Table, token: string): Word {
    match Find(table, token)
    case Some(mask) => mask
    case None => match Stoi(token) case Some(i) => Bits(i) case None => {}
  }

  function PieceBits(table: Table, piece: string): Word {
    var token := TrimRight(TrimLeft(piece));
    if token == "" then {} else TokenBits(table, token)
  }

  /** The length of the text before the first bar. */
  function BarAt(s: string): (n: nat)
    ensures n <= |s| && (n < |s| ==> s[n] == '|') && forall i | 0 <= i < n :: s[i] != '|'
  {
    if s == "" || s[0] == '|' then 0 else 1 + BarAt(s[1..])
  }

  function ParseBits(table: Table, s: string): Word
    decreases |s|
  {
    var n := BarAt(s);
    if n == |s| then PieceBits(table, s) else PieceBits(table, s[..n]) + ParseBits(table, s[n + 1..])
  }

  function Parse(table: Table, s: string): int32 {
    Number(ParseBits(table, s))
  }

  method ParseLoop(table: Table, s: string) returns (v: int32)
    ensures v == Parse(table, s)
  {
    hide PieceBits, BarAt, Number;
    var result: Word := {};
    var start := 0;
    while true
      invariant start <= |s|
      invariant result + ParseBits(table, s[start..]) == ParseBits(table, s)
      decreases |s| - start
    {
      var rest := s[start..];
      var n := BarAt(rest);
      if n == |rest| {
        return Number(result + PieceBits(table, rest));
      }
      assert rest[n + 1..] == s[start + n + 1..];
      result := result + PieceBits(table, rest[..n]);
      start := start + n + 1;
    }
  }

  // ---- The flags named for a value ----

  function Union(es: Table): Word {
    if es == [] then {} else Mask(es[0]) + Union(es[1..])
  }

  /** The picked masks and the remaining bits partition the value. */
  lemma {:induction false} PickedPartition(table: Table, remaining: Word)
    ensures var picked := Picked(table, remaining);
            && Union(picked) + Rest(table, remaining) == remaining
            && Union(picked) !! Rest(table, remaining)
            && forall i, j | 0 <= i < j < |picked| :: Mask(picked[i]) !! Mask(picked[j])
    decreases |table|
  {
    hide Bits;
    if table != [] {
      var (e, rest) := (table[0], table[1..]);
      if Applies(e, remaining) {
        var left := remaining - Mask(e);
        PickedPartition(rest, left);
        var later := Picked(rest, left);
        assert Picked(table, remaining)[1..] == later;
        forall j | 0 <= j < |later|
          ensures Mask(later[j]) <= left
        {
          InUnion(later, j);
        }
      } else {
        PickedPartition(rest, remaining);
      }
    }
  }

  // ---- Which flags are named ----

  function Power(k: nat): (n: nat)
    ensures n > 0
  {
    if k == 0 then 1 else 2 * Power(k - 1)
  }

  lemma {:induction false} BitsFromAre(n: nat, low: nat, k: nat)
    requires low <= k < 32
    ensures k in BitsFrom(n, low) <==> n / Power(k - low) % 2 == 1
    decreases 32 - low
  {
    if k > low {
      BitsFromAre(n / 2, low + 1, k);
      HalvesAndPowers(n, k - low);
    }
  }

  lemma HalvesAndPowers(n: nat, k: nat)
    requires k > 0
    ensures n / 2 / Power(k - 1) == n / Power(k)
  {
    var p := Power(k - 1);
    var q := n / 2 / p;
    var (r, b) := (n / 2 % p, n % 2);
    assert n / 2 == p * q + r;
    assert n == Power(k) * q + (2 * r + b) by {
      assert n == 2 * (n / 2) + b;
      assert 2 * (p * q) == Power(k) * q;
    }
    QuotientIs(n, Power(k), q, 2 * r + b);
  }

  lemma QuotientIs(n: nat, d: nat, q: nat, r: nat)
    requires d > 0 && n == d * q + r && r < d
    ensures n / d == q
  {
    var x := n / d;
    assert d * x <= n < d * (x + 1);
    assert d * q <= n < d * (q + 1);
    assert x < q + 1 && q < x + 1;
  }

  /** The bits of a word are those of its two's complement pattern. */
  lemma BitsAre(i: int32, k: nat)
    requires k < 32
    ensures k in Bits(i) <==> Pattern(i) / Power(k) % 2 == 1
  {
    BitsFromAre(Pattern(i), 0, k);
  }

  /** The bits of `w` that are left before entry `i` has its turn. */
  function LeftBefore(table: Table, w: Word, i: nat): Word
    requires i <= |table|
    decreases i, 0
  {
    if i == 0 then w
    else if Named(table, w, i - 1) then LeftBefore(table, w, i - 1) - Bits(table[i - 1].value)
    else LeftBefore(table, w, i - 1)
  }

  /** Entry `i` has bits, and all of them are still left. */
  predicate Named(table: Table, w: Word, i: nat)
    requires i < |table|
    decreases i, 1
  {
    Bits(table[i].value) != {} && Bits(table[i].value) <= LeftBefore(table, w, i)
  }

  /** The entries of the table from `i` on that are named, in table order. */
  function NamedFrom(table: Table, w: Word, i: nat): Table
    requires i <= |table|
    decreases |table| - i
  {
    if i == |table| then [] else (if Named(table, w, i) then [table[i]] else []) + NamedFrom(table, w, i + 1)
  }

  lemma {:induction false} PickedFrom(table: Table, w: Word, i: nat)
    requires i <= |table|
    ensures Picked(table[i..], LeftBefore(table, w, i)) == NamedFrom(table, w, i)
    ensures Rest(table[i..], LeftBefore(table, w, i)) == LeftBefore(table, w, |table|)
    decreases |table| - i
  {
    hide Bits;
    if i < |table| {
      assert table[i..][0] == table[i] && table[i..][1..] == table[i + 1..];
      PickedFrom(table, w, i + 1);
      assert Applies(table[i], LeftBefore(table, w, i)) <==> Named(table, w, i);
    }
  }

  /** `format` names an entry if and only if all its bits are left by the entries named before it. */
  lemma PickedIff(table: Table, w: Word)
    ensures Picked(table, w) == NamedFrom(table, w, 0) && Rest(table, w) == LeftBefore(table, w, |table|)
  {
    hide Picked, Rest, NamedFrom;
    assert table[0..] == table;
    PickedFrom(table, w, 0);
  }

  /** No flag is left out that could be named: none fits into the remainder. */
  lemma {:induction false} NothingLeftToName(table: Table, w: Word, i: nat)
    requires i < |table|
    ensures Bits(table[i].value) == {} || !(Bits(table[i].value) <= Rest(table, w))
    decreases |table|
  {
    hide Bits;
    PickedIff(table, w);
    LeftShrinks(table, w, i + 1, |table|);
    LeftShrinks(table, w, i, |table|);
  }

  lemma {:induction false} LeftShrinks(table: Table, w: Word, i: nat, j: nat)
    requires i <= j <= |table|
    ensures LeftBefore(table, w, j) <= LeftBefore(table, w, i)
    decreases j
  {
    hide Bits;
    if i < j {
      LeftShrinks(table, w, i, j - 1);
    }
  }

  lemma {:induction false} InUnion(es: Table, i: nat)
    requires i < |es|
    ensures Mask(es[i]) <= Union(es)
  {
    hide Mask;
    if i > 0 {
      InUnion(es[1..], i - 1);
    }
  }

  // ---- What a text says ----

  predicate AllBlank(s: string) {
    forall i | 0 <= i < |s| :: s[i] == ' ' || s[i] == '\t'
  }

  lemma {:induction false} LeadIsTrimmed(lead: string, t: string)
    requires AllBlank(lead) && (t == "" || !AllBlank(t[..1]))
    ensures TrimLeft(lead + t) == t
  {
    if lead == "" {
      assert lead + t == t;
    } else {
      assert (lead + t)[1..] == lead[1..] + t;
      LeadIsTrimmed(lead[1..], t);
    }
  }

  lemma {:induction false} TrailIsTrimmed(t: string, trail: string)
    requires AllBlank(trail) && (t == "" || !AllBlank(t[|t| - 1..]))
    ensures TrimRight(t + trail) == t
    decreases |trail|
  {
    if trail == "" {
      assert t + trail == t;
    } else {
      var s := t + trail;
      assert s[..|s| - 1] == t + trail[..|trail| - 1];
      TrailIsTrimmed(t, trail[..|trail| - 1]);
    }
  }

  /** The first entry of that name, if there is one. */
  lemma {:induction false} FindIs(table: Table, name: string)
    ensures match Find(table, name)
            case Some(mask) =>
              exists i | 0 <= i < |table| ::
                table[i].name == name && mask == Bits(table[i].value) && forall j | 0 <= j < i :: table[j].name != name
            case None => forall i | 0 <= i < |table| :: table[i].name != name
  {
    hide Bits;
    if table != [] && table[0].name != name {
      FindIs(table[1..], name);
      if Find(table, name).Some? {
        var i :| 0 <= i < |table[1..]| && table[1..][i].name == name &&
                 Find(table, name).value == Bits(table[1..][i].value) &&
                 forall j | 0 <= j < i :: table[1..][j].name != name;
        forall j | 0 <= j < i + 1
          ensures table[j].name != name
        {
          assert j > 0 ==> table[j] == table[1..][j - 1];
        }
        assert table[i + 1] == table[1..][i];
      } else {
        forall i | 0 <= i < |table|
          ensures table[i].name != name
        {
          assert i > 0 ==> table[i] == table[1..][i - 1];
        }
      }
    }
  }

  /**
    * The text between two bars, less spaces and tabs around it, adds the bits of the first entry of
    * that name, else of the number it begins with, else nothing.
    */
  lemma PieceMeans(table: Table, lead: string, t: string, trail: string)
    requires AllBlank(lead) && AllBlank(trail)
    requires t == "" || (!AllBlank(t[..1]) && !AllBlank(t[|t| - 1..]))
    requires forall i | 0 <= i < |lead + t + trail| :: (lead + t + trail)[i] != '|'
    ensures var bits := ParseBits(table, lead + t + trail);
            && (t == "" ==> bits == {})
            && (t != "" && (forall i | 0 <= i < |table| :: table[i].name != t) ==>
                  bits == if Stoi(t).Some? then Bits(Stoi(t).value) else {})
            && (forall i | 0 <= i < |table| && t != "" && table[i].name == t ::
                  (forall j | 0 <= j < i :: table[j].name != t) ==> bits == Bits(table[i].value))
  {
    hide Stoi, Bits, Find, BarAt, TrimLeft, TrimRight;
    NoBar(lead + t + trail);
    if t == "" {
      assert lead + t + trail == (lead + trail) + t;
      LeadIsTrimmed(lead + trail, t);
      TrailIsTrimmed("", "");
      assert "" + "" == "";
    } else {
      assert lead + t + trail == lead + (t + trail);
      assert (t + trail)[..1] == t[..1];
      LeadIsTrimmed(lead, t + trail);
      TrailIsTrimmed(t, trail);
      FindIs(table, t);
    }
  }

  // ---- Round trip ----

  predicate Numeral(s: string) {
    exists i: int32 :: s == ToText(i)
  }

  /** A token that survives splitting at bars and trimming. */
  predicate Solid(s: string) {
    && s != "" && !Blank(s[0]) && !Blank(s[|s| - 1])
    && forall i | 0 <= i < |s| :: s[i] != '|'
  }

  /** Distinct names that are solid tokens and no numerals. */
  ghost predicate Proper(table: Table) {
    && (forall i | 0 <= i < |table| :: Solid(table[i].name) && !Numeral(table[i].name))
    && (forall i, j | 0 <= i < j < |table| :: table[i].name != table[j].name)
  }

  function Joined(tokens: seq<string>): string {
    if tokens == [] then ""
    else if |tokens| == 1 then tokens[0]
    else tokens[0] + " | " + Joined(tokens[1..])
  }

  lemma {:induction false} AppendJoins(tokens: seq<string>, t: string)
    requires forall i | 0 <= i < |tokens| :: tokens[i] != ""
    ensures Append(Joined(tokens), t) == Joined(tokens + [t])
  {
    if tokens == [] {
      assert tokens + [t] == [t];
    } else if |tokens| == 1 {
      assert (tokens + [t])[1..] == [t];
    } else {
      AppendJoins(tokens[1..], t);
      assert (tokens + [t])[1..] == tokens[1..] + [t];
      assert tokens[1] != "";
    }
  }

  function Names(es: Table): seq<string> {
    seq(|es|, i requires 0 <= i < |es| => es[i].name)
  }

  lemma {:induction false} NamesJoin(tokens: seq<string>, es: Table)
    requires forall i | 0 <= i < |tokens| :: tokens[i] != ""
    requires forall i | 0 <= i < |es| :: es[i].name != ""
    ensures AppendNames(Joined(tokens), es) == Joined(tokens + Names(es))
    decreases |es|
  {
    if es == [] {
      assert tokens + Names(es) == tokens;
    } else {
      AppendJoins(tokens, es[0].name);
      NamesJoin(tokens + [es[0].name], es[1..]);
      assert tokens + [es[0].name] + Names(es[1..]) == tokens + Names(es);
    }
  }

  lemma TrimSolid(s: string)
    requires Solid(s)
    ensures TrimRight(TrimLeft(s)) == s
    ensures TrimRight(TrimLeft(s + " ")) == s
    ensures TrimRight(TrimLeft(" " + s)) == s
    ensures TrimRight(TrimLeft(" " + s + " ")) == s
  {
    assert (s + " ")[..|s|] == s;
    assert (" " + s)[1..] == s;
    assert (" " + s + " ")[1..] == s + " ";
    assert TrimLeft(s + " ") == s + " ";
    assert TrimLeft(" " + s + " ") == TrimLeft(s + " ");
    assert TrimRight(s + " ") == TrimRight(s) == s;
  }

  lemma SolidPiece(table: Table, t: string)
    requires Solid(t)
    ensures PieceBits(table, t) == PieceBits(table, t + " ") == TokenBits(table, t)
    ensures PieceBits(table, " " + t) == PieceBits(table, " " + t + " ") == TokenBits(table, t)
  {
    hide TrimLeft, TrimRight, TokenBits;
    TrimSolid(t);
  }

  function TokensBits(table: Table, tokens: seq<string>): Word {
    if tokens == [] then {} else TokenBits(table, tokens[0]) + TokensBits(table, tokens[1..])
  }

  lemma {:induction false} FirstBar(a: string, b: string)
    requires forall i | 0 <= i < |a| :: a[i] != '|'
    ensures BarAt(a + "|" + b) == |a|
  {
    var s := a + "|" + b;
    if a != "" {
      assert s[0] == a[0] && s[1..] == a[1..] + "|" + b;
      FirstBar(a[1..], b);
    }
  }

  lemma {:induction false} NoBar(a: string)
    requires forall i | 0 <= i < |a| :: a[i] != '|'
    ensures BarAt(a) == |a|
  {
    if a != "" {
      NoBar(a[1..]);
    }
  }

  /** A bar anywhere splits the text into parts that are parsed alone. */
  lemma {:induction false} ParseSplits(table: Table, a: string, b: string)
    ensures ParseBits(table, a + "|" + b) == ParseBits(table, a) + ParseBits(table, b)
    decreases |a|
  {
    hide PieceBits, BarAt;
    var n := BarAt(a);
    var s := a + "|" + b;
    if n == |a| {
      FirstBar(a, b);
      assert s[..n] == a && s[n + 1..] == b;
    } else {
      var (first, rest) := (a[..n], a[n + 1..]);
      assert s == first + "|" + (rest + "|" + b);
      FirstBar(first, rest + "|" + b);
      assert s[..n] == first && s[n + 1..] == rest + "|" + b;
      ParseSplits(table, rest, b);
    }
  }

  /** Joined tokens parse as what each of them stands for, with or without a leading blank. */
  lemma {:induction false} JoinedParse(table: Table, tokens: seq<string>, lead: string)
    requires tokens != [] && (lead == "" || lead == " ")
    requires forall i | 0 <= i < |tokens| :: Solid(tokens[i])
    ensures ParseBits(table, lead + Joined(tokens)) == TokensBits(table, tokens)
    decreases |tokens|
  {
    hide PieceBits, TokenBits, BarAt;
    var t := tokens[0];
    SolidPiece(table, t);
    var s := lead + Joined(tokens);
    if |tokens| == 1 {
      assert tokens[1..] == [];
      assert s == if lead == "" then t else " " + t;
      NoBar(s);
    } else {
      var first := lead + t + " ";
      var rest := " " + Joined(tokens[1..]);
      assert s == first + "|" + rest;
      FirstBar(first, rest);
      assert s[..|first|] == first && s[|first| + 1..] == rest;
      assert first == if lead == "" then t + " " else " " + t + " ";
      JoinedParse(table, tokens[1..], " ");
    }
  }

  lemma {:induction false} FindEntry(table: Table, i: nat)
    requires i < |table|
    requires forall a, b | 0 <= a < b < |table| :: table[a].name != table[b].name
    ensures Find(table, table[i].name) == Some(Mask(table[i]))
    decreases |table|
  {
    hide Mask;
    if i > 0 {
      FindEntry(table[1..], i - 1);
    }
  }

  lemma {:induction false} FindNothing(table: Table, name: string)
    requires forall i | 0 <= i < |table| :: table[i].name != name
    ensures Find(table, name) == None
  {
    if table != [] {
      FindNothing(table[1..], name);
    }
  }

  lemma {:induction false} PickedFromTable(table: Table, remaining: Word, k: nat)
    requires k < |Picked(table, remaining)|
    ensures exists i | 0 <= i < |table| :: table[i] == Picked(table, remaining)[k]
    decreases |table|
  {
    hide Applies, Mask;
    var (e, rest) := (table[0], table[1..]);
    if !Applies(e, remaining) {
      PickedFromTable(rest, remaining, k);
      var i :| 0 <= i < |rest| && rest[i] == Picked(rest, remaining)[k];
      assert table[i + 1] == Picked(table, remaining)[k];
    } else if k > 0 {
      PickedFromTable(rest, remaining - Mask(e), k - 1);
      var i :| 0 <= i < |rest| && rest[i] == Picked(rest, remaining - Mask(e))[k - 1];
      assert table[i + 1] == Picked(table, remaining)[k];
    } else {
      assert table[0] == Picked(table, remaining)[k];
    }
  }

  lemma {:induction false} NamesBits(table: Table, es: Table)
    requires forall k | 0 <= k < |es| :: Find(table, es[k].name) == Some(Mask(es[k]))
    ensures TokensBits(table, Names(es)) == Union(es)
  {
    hide Mask;
    if es != [] {
      NamesBits(table, es[1..]);
      assert Names(es)[1..] == Names(es[1..]);
    }
  }

  lemma {:induction false} TokensBitsMore(table: Table, tokens: seq<string>, t: string)
    ensures TokensBits(table, tokens + [t]) == TokensBits(table, tokens) + TokenBits(table, t)
  {
    hide TokenBits;
    if tokens == [] {
      assert tokens + [t] == [t] && [t][1..] == [];
    } else {
      assert (tokens + [t])[1..] == tokens[1..] + [t];
      TokensBitsMore(table, tokens[1..], t);
    }
  }

  lemma NumeralToken(table: Table, i: int32)
    requires Proper(table)
    ensures TokenBits(table, ToText(i)) == Bits(i) && Solid(ToText(i))
  {
    hide Stoi, Bits;
    assert Numeral(ToText(i));
    FindNothing(table, ToText(i));
    TextReadsBack(i);
    NumeralIsSolid(i);
  }

  lemma NumeralIsSolid(i: int32)
    ensures Solid(ToText(i))
  {
    hide NatText;
    var n: int := i;
    var digits := NatText(if n < 0 then -n else n);
    assert forall k | 0 <= k < |digits| :: IsDigit(digits[k]);
    var s := ToText(i);
    assert s == if n < 0 then "-" + digits else digits;
    assert IsDigit(s[|s| - 1]);
  }

  /** The tokens `format` writes for `v`. */
  function Tokens(table: Table, v: int32): seq<string> {
    var names := Names(Picked(table, Bits(v)));
    var rest := Rest(table, Bits(v));
    if rest != {} then names + [ToText(Number(rest))]
    else if names == [] then [ToText(v)]
    else names
  }

  lemma PickedNames(table: Table, w: Word)
    requires Proper(table)
    ensures var names := Names(Picked(table, w));
            && (forall k | 0 <= k < |names| :: Solid(names[k]) && names[k] != "")
            && AppendNames("", Picked(table, w)) == Joined(names)
            && TokensBits(table, names) == Union(Picked(table, w))
  {
    hide Solid, Numeral, TokenBits, Picked, Mask, Joined, AppendNames, TokensBits, Find;
    var picked := Picked(table, w);
    forall k | 0 <= k < |picked|
      ensures Solid(picked[k].name) && picked[k].name != "" && Find(table, picked[k].name) == Some(Mask(picked[k]))
    {
      PickedFromTable(table, w, k);
      var i :| 0 <= i < |table| && table[i] == picked[k];
      FindEntry(table, i);
      SolidNonempty(table[i].name);
    }
    assert [] + Names(picked) == Names(picked);
    NothingJoined();
    NamesJoin([], picked);
    NamesBits(table, picked);
  }

  lemma NothingJoined()
    ensures Joined([]) == ""
  {
  }

  /** One more token after the names. */
  lemma OneMoreToken(table: Table, names: seq<string>, i: int32)
    requires Proper(table) && forall k | 0 <= k < |names| :: Solid(names[k]) && names[k] != ""
    ensures var ts := names + [ToText(i)];
            && (forall k | 0 <= k < |ts| :: Solid(ts[k]))
            && Append(Joined(names), ToText(i)) == Joined(ts) != ""
            && TokensBits(table, ts) == TokensBits(table, names) + Bits(i)
  {
    hide Solid, Proper, TokenBits, Bits, ToText, Joined, Append, TokensBits;
    NumeralToken(table, i);
    AppendJoins(names, ToText(i));
    TokensBitsMore(table, names, ToText(i));
    SolidNonempty(ToText(i));
    JoinedNonempty(names + [ToText(i)]);
  }

  lemma TokensProper(table: Table, v: int32)
    requires Proper(table)
    ensures var ts := Tokens(table, v);
            && ts != [] && (forall i | 0 <= i < |ts| :: Solid(ts[i]))
            && Format(table, v) == Joined(ts)
            && TokensBits(table, ts) == Bits(v)
  {
    hide Solid, Proper, Bits, Number, ToText, Picked, Rest, Joined, AppendNames, TokensBits, Union, Names;
    var w := Bits(v);
    var (names, rest) := (Names(Picked(table, w)), Rest(table, w));
    PickedNames(table, w);
    PickedPartition(table, w);
    JoinedNonempty(names);
    if rest != {} {
      WordRoundTrip(rest, 0);
      OneMoreToken(table, names, Number(rest));
    } else if names == [] {
      OneMoreToken(table, [], v);
      assert [] + [ToText(v)] == [ToText(v)];
      NothingJoined();
      assert TokensBits(table, []) == {} by { NoTokens(table); }
    }
  }

  lemma NoTokens(table: Table)
    ensures TokensBits(table, []) == {}
  {
  }

  lemma SolidNonempty(s: string)
    requires Solid(s)
    ensures s != ""
  {
  }

  lemma JoinedNonempty(tokens: seq<string>)
    requires forall i | 0 <= i < |tokens| :: tokens[i] != ""
    ensures Joined(tokens) == "" <==> tokens == []
  {
  }

  /** On a proper table, parsing what `format` wrote gives the value back, whatever it is. */
  lemma FlagsRoundTrip(table: Table, v: int32)
    requires Proper(table)
    ensures Parse(table, Format(table, v)) == v
  {
    hide Format, Tokens, TokensBits, ParseBits, Bits, Number, Solid;
    TokensProper(table, v);
    JoinedParse(table, Tokens(table, v), "");
    assert "" + Joined(Tokens(table, v)) == Joined(Tokens(table, v));
    WordRoundTrip({}, v);
  }

  /** `f = f.get_as<std::string>()` on an integer field `v` with the attribute leaves it as it was. */
  method SelfAssignment(table: Table, v: int32) returns (after: int32)
    requires Proper(table)
    ensures after == v
  {
    hide *;
    var text := FormatLoop(table, v);
    after := ParseLoop(table, text);
    FlagsRoundTrip(table, v);
  }
}
