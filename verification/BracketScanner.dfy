/** The bracket scanner that cuts a JSON array out of a serialized plan. */
module BracketScanner {
  import opened Options

  // ----- JSON texts (sections 2 to 7 of RFC 8259) -----

  /** A character of a string literal, as it is written. */
  datatype Piece = Plain(c: char) | Escape(c: char) | Unicode(h1: char, h2: char, h3: char, h4: char)

  /** An atom is a number or a literal name; only its characters matter here. Every value, key and
      separator may be surrounded by white space. */
  datatype Json =
    | Atom(text: string)
    | Str(pieces: seq<Piece>)
    | Arr(lead: string, items: seq<Item>)
    | Obj(lead: string, members: seq<Member>)

  datatype Item = Item(before: string, value: Json, after: string)

  datatype Member = Member(before: string, key: seq<Piece>, afterKey: string, item: Item)

  predicate Blank(s: string) {
    forall i | 0 <= i < |s| :: s[i] in {' ', '\t', '\n', '\r'}
  }

  predicate Hex(c: char) {
    '0' <= c <= '9' || 'a' <= c <= 'f' || 'A' <= c <= 'F'
  }

  predicate LegalPiece(p: Piece) {
    match p
    case Plain(c) => c >= ' ' && c != '"' && c != '\\'
    case Escape(c) => c in {'"', '\\', '/', 'b', 'f', 'n', 'r', 't'}
    case Unicode(a, b, c, d) => Hex(a) && Hex(b) && Hex(c) && Hex(d)
  }

  predicate LegalPieces(ps: seq<Piece>) {
    forall i | 0 <= i < |ps| :: LegalPiece(ps[i])
  }

  predicate AtomChar(c: char) {
    '0' <= c <= '9' || 'a' <= c <= 'z' || c in {'-', '+', '.', 'E'}
  }

  predicate Legal(v: Json)
    decreases v, 1
  {
    match v
    case Atom(t) => t != "" && forall i | 0 <= i < |t| :: AtomChar(t[i])
    case Str(ps) => LegalPieces(ps)
    case Arr(lead, items) => Blank(lead) && LegalItems(items)
    case Obj(lead, members) => Blank(lead) && LegalMembers(members)
  }

  predicate LegalItem(item: Item)
    decreases item, 0
  {
    Blank(item.before) && Legal(item.value) && Blank(item.after)
  }

  predicate LegalItems(items: seq<Item>)
    decreases items, 0
  {
    items == [] || (LegalItem(items[0]) && LegalItems(items[1..]))
  }

  predicate LegalMembers(ms: seq<Member>)
    decreases ms, 0
  {
    ms == [] ||
    (Blank(ms[0].before) && LegalPieces(ms[0].key) && Blank(ms[0].afterKey) && LegalItem(ms[0].item) && LegalMembers(ms[1..]))
  }

  function PieceText(p: Piece): string {
    match p
    case Plain(c) => [c]
    case Escape(c) => ['\\', c]
    case Unicode(a, b, c, d) => ['\\', 'u', a, b, c, d]
  }

  function PiecesText(ps: seq<Piece>): string {
    if ps == [] then "" else PieceText(ps[0]) + PiecesText(ps[1..])
  }

  function StringText(ps: seq<Piece>): string {
    ['"'] + PiecesText(ps) + ['"']
  }

  function Text(v: Json): string
    decreases v, 1
  {
    match v
    case Atom(t) => t
    case Str(ps) => StringText(ps)
    case Arr(lead, items) => ['['] + (lead + ItemsText(items)) + [']']
    case Obj(lead, members) => ['{'] + (lead + MembersText(members)) + ['}']
  }

  function ItemText(item: Item): string
    decreases item, 0
  {
    item.before + Text(item.value) + item.after
  }

  function Comma(more: bool): string {
    if more then [','] else ""
  }

  function ItemsText(items: seq<Item>): string
    decreases items, 0
  {
    if items == [] then "" else ItemText(items[0]) + Comma(|items| > 1) + ItemsText(items[1..])
  }

  function MembersText(ms: seq<Member>): string
    decreases ms, 0
  {
    if ms == [] then ""
    else ms[0].before + StringText(ms[0].key) + ms[0].afterKey + [':'] + ItemText(ms[0].item) + Comma(|ms| > 1) + MembersText(ms[1..])
  }

  /** Texts of small documents: `[1,0]`, `"]\""` and `{"k":0}`. */
  lemma SampleArray()
    ensures var doc := Arr("", [Item("", Atom("1"), ""), Item("", Atom("0"), "")]); Legal(doc) && Text(doc) == "[1,0]"
  {
    var one, two := Item("", Atom("1"), ""), Item("", Atom("0"), "");
    var items := [one, two];
    assert items[1..] == [two] && [two][1..] == [];
    assert ItemText(one) == "1" && ItemText(two) == "0";
    assert ItemsText([two][1..]) == "";
    assert ItemsText([two]) == "0" + "" + "";
    assert ItemsText(items) == "1" + [','] + "0";
    assert Legal(one.value) && Legal(two.value);
    assert LegalItems([two][1..]) && LegalItems([two]);
  }

  lemma SampleString()
    ensures var doc := Str([Plain(']'), Escape('"')]); Legal(doc) && Text(doc) == ['"', ']', '\\', '"', '"']
    ensures PieceText(Unicode('0', '0', 'f', 'A')) == ['\\', 'u', '0', '0', 'f', 'A'] && LegalPiece(Unicode('0', '0', 'f', 'A'))
  {
    var a, b := Plain(']'), Escape('"');
    assert [b][1..] == [] && [a, b][1..] == [b];
    assert PiecesText([b]) == PieceText(b) + "";
    assert PiecesText([a, b]) == PieceText(a) + PiecesText([b]);
  }

  lemma SampleObject()
    ensures var doc := Obj("", [Member("", [Plain('k')], "", Item("", Atom("0"), ""))]);
            Legal(doc) && Text(doc) == ['{', '"', 'k', '"', ':', '0', '}']
  {
    var item := Item("", Atom("0"), "");
    var m := Member("", [Plain('k')], "", item);
    assert [m][1..] == [] && [Plain('k')][1..] == [];
    assert PiecesText([Plain('k')]) == ['k'] + "";
    assert ItemText(item) == "0";
    assert MembersText([m][1..]) == "";
    assert MembersText([m]) == "" + (['"'] + "k" + ['"']) + "" + [':'] + "0" + "" + "";
    assert LegalMembers([m][1..]);
    assert Legal(item.value);
  }

  // ----- the scanner -----

  function Plus(m: nat, r: Option<nat>): Option<nat> {
    if r.None? then None else Some(m + r.value)
  }

  /** How many characters to the one that closes depth zero. */
  function Scan(s: string, depth: int, inStr: bool, esc: bool): (r: Option<nat>)
    ensures r.Some? ==> 0 < r.value <= |s|
  {
    if s == "" then None
    else
      var rest := s[1..];
      Plus(1,
        if inStr then
          if esc then Scan(rest, depth, true, false) else Scan(rest, depth, s[0] != '"', s[0] == '\\')
        else if s[0] == '"' then Scan(rest, depth, true, false)
        else if s[0] == '[' then Scan(rest, depth + 1, false, false)
        else if s[0] == ']' then (if depth == 1 then Some(0) else Scan(rest, depth - 1, false, false))
        else Scan(rest, depth, false, false))
  }

  /** `_balanced_bracket_slice`. */
  method BalancedBracketSlice(s: string, start: nat) returns (r: Option<string>)
    ensures start > |s| ==> r == None
    ensures start <= |s| ==>
      var found := Scan(s[start..], 0, false, false);
      r == if found.Some? then Some(s[start..start + found.value]) else None
  {
    hide Scan;
    if start > |s| {
      return None;
    }
    var depth, inStr, esc := 0, false, false;
    for k := start to |s|
      invariant esc ==> inStr
      invariant Scan(s[start..], 0, false, false) == Plus(k - start, Scan(s[k..], depth, inStr, esc))
    {
      var ch := s[k];
      ScanAt(s, k, depth, inStr, esc);
      if inStr {
        if esc {
          esc := false;
        } else if ch == '\\' {
          esc := true;
        } else if ch == '"' {
          inStr := false;
        }
        continue;
      }
      if ch == '"' {
        inStr := true;
      } else if ch == '[' {
        depth := depth + 1;
      } else if ch == ']' {
        depth := depth - 1;
        if depth == 0 {
          return Some(s[start..k + 1]);
        }
      }
    }
    ScanEnd(depth, inStr, esc);
    return None;
  }

  lemma ScanEnd(depth: int, inStr: bool, esc: bool)
    ensures Scan("", depth, inStr, esc) == None
  {
  }

  /** One character of the scan. */
  lemma ScanAt(s: string, k: nat, depth: int, inStr: bool, esc: bool)
    requires k < |s|
    ensures inStr && esc ==> Scan(s[k..], depth, inStr, esc) == Plus(1, Scan(s[k + 1..], depth, true, false))
    ensures inStr && !esc ==> Scan(s[k..], depth, inStr, esc) == Plus(1, Scan(s[k + 1..], depth, s[k] != '"', s[k] == '\\'))
    ensures !inStr && s[k] == '"' ==> Scan(s[k..], depth, inStr, esc) == Plus(1, Scan(s[k + 1..], depth, true, false))
    ensures !inStr && s[k] == '[' ==> Scan(s[k..], depth, inStr, esc) == Plus(1, Scan(s[k + 1..], depth + 1, false, false))
    ensures !inStr && s[k] == ']' && depth == 1 ==> Scan(s[k..], depth, inStr, esc) == Some(1)
    ensures !inStr && s[k] == ']' && depth != 1 ==>
      Scan(s[k..], depth, inStr, esc) == Plus(1, Scan(s[k + 1..], depth - 1, false, false))
    ensures !inStr && s[k] != '"' && s[k] != '[' && s[k] != ']' ==>
      Scan(s[k..], depth, inStr, esc) == Plus(1, Scan(s[k + 1..], depth, false, false))
  {
    assert s[k..][1..] == s[k + 1..] && s[k..][0] == s[k];
  }

  // ----- what the scanner passes over -----

  /** Outside strings and inside at least one bracket, the scanner passes over `t`. */
  ghost predicate Neutral(t: string) {
    forall rest: string, d: int | d >= 1 :: Scan(t + rest, d, false, false) == Plus(|t|, Scan(rest, d, false, false))
  }

  lemma NeutralAt(t: string, rest: string, d: int)
    requires Neutral(t) && d >= 1
    ensures Scan(t + rest, d, false, false) == Plus(|t|, Scan(rest, d, false, false))
  {
  }

  lemma NeutralConcat(a: string, b: string)
    requires Neutral(a) && Neutral(b)
    ensures Neutral(a + b)
  {
    forall rest: string, d: int | d >= 1
      ensures Scan(a + b + rest, d, false, false) == Plus(|a + b|, Scan(rest, d, false, false))
    {
      hide Scan;
      assert a + b + rest == a + (b + rest);
      NeutralAt(a, b + rest, d);
      NeutralAt(b, rest, d);
    }
  }

  lemma NeutralEmpty()
    ensures Neutral("")
  {
    forall rest: string, d: int | d >= 1
      ensures Scan("" + rest, d, false, false) == Plus(0, Scan(rest, d, false, false))
    {
      assert "" + rest == rest;
    }
  }

  lemma NeutralChar(c: char)
    requires c != '"' && c != '[' && c != ']'
    ensures Neutral([c])
  {
    forall rest: string, d: int | d >= 1
      ensures Scan([c] + rest, d, false, false) == Plus(1, Scan(rest, d, false, false))
    {
      assert ([c] + rest)[1..] == rest;
    }
  }

  lemma {:induction false} NeutralChars(t: string)
    requires forall i | 0 <= i < |t| :: t[i] != '"' && t[i] != '[' && t[i] != ']'
    ensures Neutral(t)
  {
    if t == "" {
      NeutralEmpty();
    } else {
      NeutralChar(t[0]);
      NeutralChars(t[1..]);
      NeutralConcat([t[0]], t[1..]);
      assert [t[0]] + t[1..] == t;
    }
  }

  /** Inside a string literal, whatever it contains. */
  lemma {:induction false} ScanPieces(ps: seq<Piece>, rest: string, d: int)
    requires LegalPieces(ps)
    ensures Scan(PiecesText(ps) + rest, d, true, false) == Plus(|PiecesText(ps)|, Scan(rest, d, true, false))
  {
    if ps == [] {
      assert PiecesText(ps) + rest == rest;
    } else {
      var tail := PiecesText(ps[1..]) + rest;
      assert PiecesText(ps) + rest == PieceText(ps[0]) + tail;
      ScanPieces(ps[1..], rest, d);
      ScanPiece(ps[0], tail, d);
    }
  }

  lemma InString(c: char, rest: string, d: int, esc: bool)
    ensures Scan([c] + rest, d, true, esc) == Plus(1, if esc then Scan(rest, d, true, false) else Scan(rest, d, c != '"', c == '\\'))
  {
    assert ([c] + rest)[1..] == rest;
  }

  lemma ScanPiece(p: Piece, rest: string, d: int)
    requires LegalPiece(p)
    ensures Scan(PieceText(p) + rest, d, true, false) == Plus(|PieceText(p)|, Scan(rest, d, true, false))
  {
    hide Scan;
    match p
    case Plain(c) => InString(c, rest, d, false);
    case Escape(c) =>
      assert PieceText(p) + rest == ['\\'] + ([c] + rest);
      InString('\\', [c] + rest, d, false);
      InString(c, rest, d, true);
    case Unicode(h1, h2, h3, h4) =>
      var r4 := [h4] + rest;
      var r3 := [h3] + r4;
      var r2 := [h2] + r3;
      var r1 := [h1] + r2;
      assert PieceText(p) + rest == ['\\'] + (['u'] + r1);
      InString('\\', ['u'] + r1, d, false);
      InString('u', r1, d, true);
      InString(h1, r2, d, false);
      InString(h2, r3, d, false);
      InString(h3, r4, d, false);
      InString(h4, rest, d, false);
  }

  lemma NeutralString(ps: seq<Piece>)
    requires LegalPieces(ps)
    ensures Neutral(StringText(ps))
  {
    var t := StringText(ps);
    forall rest: string, d: int | d >= 1
      ensures Scan(t + rest, d, false, false) == Plus(|t|, Scan(rest, d, false, false))
    {
      var tail := ['"'] + rest;
      assert t + rest == ['"'] + (PiecesText(ps) + tail);
      OpenQuote(PiecesText(ps) + tail, d);
      ScanPieces(ps, tail, d);
      InString('"', rest, d, false);
    }
  }

  lemma OpenQuote(rest: string, d: int)
    ensures Scan(['"'] + rest, d, false, false) == Plus(1, Scan(rest, d, true, false))
  {
    assert (['"'] + rest)[1..] == rest;
  }

  lemma Brackets(rest: string, d: int)
    ensures Scan(['['] + rest, d, false, false) == Plus(1, Scan(rest, d + 1, false, false))
    ensures Scan([']'] + rest, d, false, false) == Plus(1, if d == 1 then Some(0) else Scan(rest, d - 1, false, false))
  {
    assert (['['] + rest)[1..] == rest && ([']'] + rest)[1..] == rest;
  }

  lemma ScanBrackets(t: string, rest: string, d: int)
    requires Neutral(t) && d >= 1
    ensures Scan(['['] + t + [']'] + rest, d, false, false) == Plus(|t| + 2, Scan(rest, d, false, false))
  {
    hide Scan, Neutral;
    var tail := [']'] + rest;
    assert ['['] + t + [']'] + rest == ['['] + (t + tail);
    Brackets(t + tail, d);
    NeutralAt(t, tail, d + 1);
    Brackets(rest, d + 1);
  }

  lemma NeutralBrackets(t: string)
    requires Neutral(t)
    ensures Neutral(['['] + t + [']'])
  {
    hide Scan;
    forall rest: string, d: int | d >= 1
      ensures Scan(['['] + t + [']'] + rest, d, false, false) == Plus(|t| + 2, Scan(rest, d, false, false))
    {
      ScanBrackets(t, rest, d);
    }
  }

  lemma NeutralBlank(s: string)
    requires Blank(s)
    ensures Neutral(s)
  {
    NeutralChars(s);
  }

  /** Inside an array the scanner passes over every value. */
  lemma {:induction false} NeutralValue(v: Json)
    requires Legal(v)
    ensures Neutral(Text(v))
    decreases v, 1
  {
    hide Neutral, Scan;
    match v
    case Atom(t) =>
      assert forall i | 0 <= i < |t| :: AtomChar(t[i]);
      NeutralChars(t);
    case Str(ps) => NeutralString(ps);
    case Arr(lead, items) =>
      NeutralBlank(lead);
      NeutralItems(items);
      NeutralConcat(lead, ItemsText(items));
      NeutralBrackets(lead + ItemsText(items));
    case Obj(lead, members) =>
      NeutralBlank(lead);
      NeutralMembers(members);
      NeutralConcat(lead, MembersText(members));
      NeutralChar('{');
      NeutralChar('}');
      NeutralConcat(['{'], lead + MembersText(members));
      NeutralConcat(['{'] + (lead + MembersText(members)), ['}']);
  }

  lemma {:induction false} NeutralItem(item: Item)
    requires LegalItem(item)
    ensures Neutral(ItemText(item))
    decreases item, 0
  {
    hide Neutral, Scan;
    NeutralBlank(item.before);
    NeutralValue(item.value);
    NeutralBlank(item.after);
    NeutralConcat(item.before, Text(item.value));
    NeutralConcat(item.before + Text(item.value), item.after);
  }

  lemma NeutralComma(more: bool)
    ensures Neutral(Comma(more))
  {
    NeutralEmpty();
    NeutralChar(',');
  }

  lemma {:induction false} NeutralItems(items: seq<Item>)
    requires LegalItems(items)
    ensures Neutral(ItemsText(items))
    decreases items, 0
  {
    hide Neutral, Scan, ItemText, LegalItem;
    if items == [] {
      NeutralEmpty();
    } else {
      NeutralItem(items[0]);
      NeutralComma(|items| > 1);
      NeutralItems(items[1..]);
      NeutralConcat(ItemText(items[0]), Comma(|items| > 1));
      NeutralConcat(ItemText(items[0]) + Comma(|items| > 1), ItemsText(items[1..]));
    }
  }

  lemma {:induction false} NeutralMembers(ms: seq<Member>)
    requires LegalMembers(ms)
    ensures Neutral(MembersText(ms))
    decreases ms, 0
  {
    hide Neutral, Scan, ItemText, LegalItem, StringText;
    if ms == [] {
      NeutralEmpty();
    } else {
      var m := ms[0];
      NeutralBlank(m.before);
      NeutralString(m.key);
      NeutralBlank(m.afterKey);
      NeutralChar(':');
      NeutralItem(m.item);
      NeutralComma(|ms| > 1);
      NeutralMembers(ms[1..]);
      var a := m.before + StringText(m.key);
      var b := a + m.afterKey;
      var c := b + [':'];
      var d := c + ItemText(m.item);
      var e := d + Comma(|ms| > 1);
      NeutralConcat(m.before, StringText(m.key));
      NeutralConcat(a, m.afterKey);
      NeutralConcat(b, [':']);
      NeutralConcat(c, ItemText(m.item));
      NeutralConcat(d, Comma(|ms| > 1));
      NeutralConcat(e, MembersText(ms[1..]));
    }
  }

  /** Started at the opening bracket of an array text, with any tail after it, the scanner stops
      exactly at the array's end. */
  lemma ScanFindsArray(v: Json, tail: string)
    requires Legal(v) && v.Arr?
    ensures Scan(Text(v) + tail, 0, false, false) == Some(|Text(v)|)
  {
    hide Scan, Neutral;
    var body := v.lead + ItemsText(v.items);
    NeutralBlank(v.lead);
    NeutralItems(v.items);
    NeutralConcat(v.lead, ItemsText(v.items));
    assert Text(v) + tail == ['['] + (body + ([']'] + tail));
    Brackets(body + ([']'] + tail), 0);
    NeutralAt(body, [']'] + tail, 1);
    Brackets(tail, 1);
  }

  /** The array list of a `Select` node, cut out of its plan. */
  method CutArray(prefix: string, v: Json, tail: string) returns (r: Option<string>)
    requires Legal(v) && v.Arr?
    ensures r == Some(Text(v))
  {
    hide Scan, Legal;
    var s := prefix + Text(v) + tail;
    ScanFindsArray(v, tail);
    assert s[|prefix|..] == Text(v) + tail;
    r := BalancedBracketSlice(s, |prefix|);
    assert s[|prefix|..|prefix| + |Text(v)|] == Text(v);
  }
}
