// The lines of the configuration file: conf_write's values and their escaping, conf_read_simple
// and conf_set_sym_val, for user values (S_DEF_USER) outside choices.
module ConfFile {
  import opened Wrappers
  import opened Expr
  import opened Config

  // ---------------------------------------------------------------- escaping

  predicate Special(c: char) {
    c == '"' || c == '\\'
  }

  /** A backslash goes before every quote and backslash. */
  function Escape(s: string): string {
    if s == "" then ""
    else (if Special(s[0]) then ['\\', s[0]] else [s[0]]) + Escape(s[1..])
  }

  /** The text behind the opening quote, up to the closing one; None if there is none. */
  function Unescape(t: string): Option<string> {
    if t == "" then None
    else if t[0] == '"' then Some("")
    else if t[0] == '\\' then
      if |t| == 1 then None
      else
        var rest := Unescape(t[2..]);
        if rest.None? then None else Some([t[1]] + rest.value)
    else
      var rest := Unescape(t[1..]);
      if rest.None? then None else Some([t[0]] + rest.value)
  }

  /** Unescaping undoes escaping, whatever follows the closing quote. */
  lemma {:induction false} EscapeRoundTrip(s: string, after: string)
    ensures Unescape(Escape(s) + "\"" + after) == Some(s)
  {
    if s != "" {
      EscapeRoundTrip(s[1..], after);
      var t, rest := Escape(s) + "\"" + after, Escape(s[1..]) + "\"" + after;
      if Special(s[0]) {
        assert t == ['\\', s[0]] + rest;
        assert t[2..] == rest;
      } else {
        assert t == [s[0]] + rest;
        assert t[1..] == rest;
      }
      assert [s[0]] + s[1..] == s;
    } else {
      assert Escape(s) + "\"" + after == "\"" + after;
    }
  }

  /** The output loop of conf_write: a run of plain characters (strcspn), then one escaped one. */
  method WriteEscaped(s: string) returns (out: string)
    ensures out == Escape(s)
  {
    out := "";
    var i := 0;
    while true
      invariant 0 <= i <= |s|
      invariant Escape(s) == out + Escape(s[i..])
      decreases |s| - i
    {
      while i < |s| && !Special(s[i])
        invariant 0 <= i <= |s|
        invariant Escape(s) == out + Escape(s[i..])
      {
        assert s[i..][1..] == s[i + 1..];
        Assoc(out, [s[i]], Escape(s[i + 1..]));
        out := out + [s[i]];
        i := i + 1;
      }
      if i == |s| {
        break;
      }
      assert s[i..][1..] == s[i + 1..];
      Assoc(out, ['\\', s[i]], Escape(s[i + 1..]));
      out := out + ['\\', s[i]];
      i := i + 1;
    }
  }

  function Prefixed(front: string, rest: Option<string>): Option<string> {
    if rest.None? then None else Some(front + rest.value)
  }

  lemma PrefixedAssoc(front: string, c: char, rest: Option<string>)
    ensures Prefixed(front, Prefixed([c], rest)) == Prefixed(front + [c], rest)
    ensures Prefixed([], rest) == rest
  {
    if rest.Some? {
      Assoc(front, [c], rest.value);
      assert [] + rest.value == rest.value;
    }
  }

  /** memmove(p2, p2 + 1, strlen(p2)): drop one character of the text buf[..n] */
  method CloseGap(buf: array<char>, p2: nat, n: nat, ghost p: nat)
    requires p <= p2 < n <= buf.Length
    modifies buf
    ensures buf[..p] == old(buf[..p]) && buf[p..p2] == old(buf[p..p2])
    ensures buf[p2..n - 1] == old(buf[p2 + 1..n])
    ensures p2 + 1 < n ==> buf[p2] == old(buf[p2 + 1]) && buf[p2 + 1..n - 1] == old(buf[p2 + 2..n])
  {
    forall k | p2 <= k < n - 1 {
      buf[k] := buf[k + 1];
    }
  }

  /** One turn of the unescaping loop: front is finished, t is the text still ahead. */
  lemma UnescapeStep(front: string, t: string)
    requires t != "" && t[0] != '"' && !(t[0] == '\\' && |t| == 1)
    ensures var k := if t[0] == '\\' then 1 else 0;
            Prefixed(front, Unescape(t)) == Prefixed(front + [t[k]], Unescape(t[k + 1..]))
  {
    var k := if t[0] == '\\' then 1 else 0;
    PrefixedAssoc(front, t[k], Unescape(t[k + 1..]));
  }

  /** One character of the text buf[p2..n] is kept, without a backslash before it. */
  method KeepOne(buf: array<char>, p: nat, p2: nat, n: nat) returns (n': nat)
    requires p <= p2 < n <= buf.Length
    requires buf[p2] == '\\' ==> p2 + 1 < n
    modifies buf
    ensures p2 < n' <= n && buf[..p] == old(buf[..p])
    ensures var t, k := old(buf[p2..n]), if old(buf[p2]) == '\\' then 1 else 0;
            buf[p..p2 + 1] == old(buf[p..p2]) + [t[k]] && buf[p2 + 1..n'] == t[k + 1..]
  {
    ghost var t, front := buf[p2..n], buf[p..p2];
    n' := n;
    if buf[p2] == '\\' {
      assert t[1] == buf[p2 + 1] && t[2..] == buf[p2 + 2..n];
      CloseGap(buf, p2, n, p);
      n' := n - 1;
    }
    assert buf[p..p2 + 1] == front + [buf[p2]];
  }

  /** The in-place loop of conf_set_sym_val: the text is buf[p..len], and memmove closes the
      gap of each removed backslash; the result ends at the returned position. */
  method UnescapeInPlace(buf: array<char>, p: nat, len: nat) returns (end: Option<nat>)
    requires p <= len <= buf.Length
    modifies buf
    ensures end.Some? <==> Unescape(old(buf[p..len])).Some?
    ensures end.Some? ==> p <= end.value <= len && buf[p..end.value] == Unescape(old(buf[p..len])).value
    ensures buf[..p] == old(buf[..p])
  {
    ghost var all, before, front, t := Unescape(buf[p..len]), buf[..p], [], buf[p..len];
    var p2, n := p, len;
    PrefixedAssoc([], 'x', all);
    while p2 < n
      invariant p <= p2 <= n <= len
      invariant front == buf[p..p2] && t == buf[p2..n]
      invariant all == Prefixed(front, Unescape(t))
      invariant buf[..p] == before
    {
      assert t[0] == buf[p2];
      if buf[p2] == '"' {
        assert front + "" == front;
        return Some(p2);
      }
      if buf[p2] == '\\' && p2 + 1 == n {
        return None;
      }
      UnescapeStep(front, t);
      n := KeepOne(buf, p, p2, n);
      p2 := p2 + 1;
      front, t := buf[p..p2], buf[p2..n];
    }
    return None;
  }

  // ------------------------------------------------------------ value validity

  predicate IsDigit(c: char) {
    '0' <= c <= '9'
  }

  predicate IsHexDigit(c: char) {
    IsDigit(c) || 'a' <= c <= 'f' || 'A' <= c <= 'F'
  }

  predicate AllHex(s: string) {
    forall i :: 0 <= i < |s| ==> IsHexDigit(s[i])
  }

  predicate AllDigits(s: string) {
    forall i :: 0 <= i < |s| ==> IsDigit(s[i])
  }

  predicate HexPrefix(s: string) {
    |s| >= 2 && s[0] == '0' && (s[1] == 'x' || s[1] == 'X')
  }

  function AfterSign(s: string): string {
    if s != "" && s[0] == '-' then s[1..] else s
  }

  function AfterPrefix(s: string): string {
    if HexPrefix(s) then s[2..] else s
  }

  /** sym_string_valid */
  predicate StringValid(typ: SymbolType, s: string) {
    match typ
    case Str => true
    case Int => var d := AfterSign(s); d != "" && (d[0] == '0' ==> |d| == 1) && AllDigits(d)
    case Hex => AfterPrefix(s) != "" && AllHex(AfterPrefix(s))
    case Boolean => s != "" && s[0] in "yYmMnN"
    case Tri => s != "" && s[0] in "yYmMnN"
    case _ => false
  }

  /** The character loops of sym_string_valid, for the two number types */
  method CheckNumber(typ: SymbolType, s: string) returns (valid: bool)
    requires typ == Int || typ == Hex
    ensures valid == StringValid(typ, s)
  {
    var i, start := 0, 0;
    if typ == Int {
      if s != "" && s[0] == '-' {
        i := 1;
      }
      ghost var d := AfterSign(s);
      if i == |s| || !IsDigit(s[i]) || (s[i] == '0' && i + 1 < |s|) {
        assert d != "" ==> d[0] == s[i];
        return false;
      }
      start := i;
      while i < |s|
        invariant start <= i <= |s|
        invariant forall k :: 0 <= k < i - start ==> IsDigit(d[k])
      {
        if !IsDigit(s[i]) {
          assert d[i - start] == s[i] && !AllDigits(d);
          return false;
        }
        i := i + 1;
      }
    } else {
      if HexPrefix(s) {
        i, start := 2, 2;
      }
      ghost var d := AfterPrefix(s);
      if i == |s| {
        return false;
      }
      while i < |s|
        invariant start <= i <= |s|
        invariant forall k :: 0 <= k < i - start ==> IsHexDigit(d[k])
      {
        if !IsHexDigit(s[i]) {
          assert d[i - start] == s[i] && !AllHex(d);
          return false;
        }
        i := i + 1;
      }
    }
    return true;
  }

  /** "%d" of a number that is not negative */
  function Decimal(n: nat): (s: string)
    ensures s != "" && AllDigits(s) && (s[0] == '0' <==> n == 0)
  {
    if n < 10 then [('0' as int + n) as char] else Decimal(n / 10) + [('0' as int + n % 10) as char]
  }

  lemma {:induction false} DecimalZero(n: nat)
    ensures n == 0 <==> Decimal(n) == "0"
    ensures Decimal(n)[0] == '0' ==> |Decimal(n)| == 1
  {
  }

  /** Digits without a leading zero are the text of a number. */
  lemma {:induction false} DigitsDecimal(d: string) returns (n: nat)
    requires d != "" && AllDigits(d) && (d[0] == '0' ==> |d| == 1)
    ensures d == Decimal(n)
  {
    var last := |d| - 1;
    var x := d[last] as int - '0' as int;
    if last == 0 {
      n := x;
    } else {
      var m := DigitsDecimal(d[..last]);
      n := 10 * m + x;
      assert m != 0 && n / 10 == m && n % 10 == x;
      assert d == d[..last] + [d[last]];
    }
  }

  /** The valid int texts are those that "%d" prints, and -0. */
  lemma IntTexts(s: string)
    ensures StringValid(Int, s) <==> exists n: nat :: s == Decimal(n) || s == "-" + Decimal(n)
  {
    var d := AfterSign(s);
    if StringValid(Int, s) {
      var n := DigitsDecimal(d);
      assert s == d || s == "-" + d;
    }
    forall n: nat | s == Decimal(n) || s == "-" + Decimal(n)
      ensures StringValid(Int, s)
    {
      DecimalZero(n);
      assert AfterSign("-" + Decimal(n)) == Decimal(n);
    }
  }

  /** s is h with or without 0x in front. */
  predicate HexForm(s: string, h: string) {
    && h != "" && (forall c <- h :: '0' <= c <= '9' || 'a' <= c <= 'f' || 'A' <= c <= 'F')
    && (s == h || s == "0x" + h || s == "0X" + h)
  }

  /** The valid hex texts are strings of digits of either case, with or without 0x in front. */
  lemma HexTexts(s: string)
    ensures StringValid(Hex, s) <==> exists h: string :: HexForm(s, h)
  {
    var p := AfterPrefix(s);
    if StringValid(Hex, s) {
      assert s == p || s == "0x" + p || s == "0X" + p by {
        assert HexPrefix(s) ==> s == [s[0], s[1]] + p;
      }
      assert HexForm(s, p);
    }
    forall h: string | HexForm(s, h)
      ensures StringValid(Hex, s)
    {
      assert forall i :: 0 <= i < |h| ==> h[i] in h;
      if s != h {
        assert p == h;
      }
    }
  }

  // ------------------------------------------------------------------- lines

  function QuotedText(val: string): string {
    "\"" + (Escape(val) + "\"")
  }

  /** The line of a string, without its newline */
  function StringLine(s: Symbol, val: string): string {
    "CONFIG_" + s.name + "=" + QuotedText(val)
  }

  /** What conf_write prints for a symbol with SYMBOL_WRITE; untyped symbols print nothing. */
  function WriteLine(s: Symbol, x: Value): Option<string> {
    match s.typ
    case Boolean => Some(TristateLine(s, x.tri))
    case Tri => Some(TristateLine(s, x.tri))
    case Str => Some(StringLine(s, x.val))
    case Int => Some("CONFIG_" + s.name + "=" + x.val)
    case Hex => Some("CONFIG_" + s.name + "=" + x.val)
    case _ => None
  }

  function TristateLine(s: Symbol, t: Tristate): string {
    if t == NO then "# CONFIG_" + s.name + " is not set"
    else "CONFIG_" + s.name + "=" + (if t == MOD then "m" else "y")
  }

  /** strchr: the first position of c at or after i, or the length */
  function IndexOf(s: string, c: char, i: nat): (r: nat)
    requires i <= |s|
    ensures i <= r <= |s|
    ensures r < |s| ==> s[r] == c
    ensures forall k :: i <= k < r ==> s[k] != c
    decreases |s| - i
  {
    if i == |s| || s[i] == c then i else IndexOf(s, c, i + 1)
  }

  predicate StartsWith(s: string, prefix: string) {
    |s| >= |prefix| && s[..|prefix|] == prefix
  }

  function StripReturn(p: string): string {
    if p != "" && p[|p| - 1] == '\r' then p[..|p| - 1] else p
  }

  /** The value ends at the newline, and a carriage return before that is dropped. */
  function LineValue(p: string): string {
    var n := IndexOf(p, '\n', 0);
    if n == |p| then p else StripReturn(p[..n])
  }

  /** conf_set_sym_val: the new user value, or the old one after a warning */
  function SetSymVal(s: Symbol, p: string, u: User): User {
    var c := if p == "" then '\0' else p[0];
    match s.typ
    case Tri =>
      if c == 'm' then u.(has := true, tri := MOD)
      else if c == 'y' then u.(has := true, tri := YES)
      else if c == 'n' then u.(has := true, tri := NO)
      else u
    case Boolean =>
      if c == 'y' then u.(has := true, tri := YES)
      else if c == 'n' then u.(has := true, tri := NO)
      else u
    case Str =>
      if c != '"' || Unescape(p[1..]).None? then u
      else u.(has := true, val := Unescape(p[1..]).value)
    case Int => if StringValid(Int, p) then u.(has := true, val := p) else u
    case Hex => if StringValid(Hex, p) then u.(has := true, val := p) else u
    case _ => u
  }

  /** What fgets has put into line, with its newline if there is one; find is sym_find. */
  function ReadLine(line: string, find: string -> Option<Symbol>, user: map<Symbol, User>): map<Symbol, User> {
    if line == "" then user
    else if line[0] == '#' then
      if |line| < 9 || line[2..9] != "CONFIG_" then user
      else
        var i := IndexOf(line, ' ', 9);
        if i == |line| || !StartsWith(line[i + 1..], "is not set") then user
        else
          var sym := find(line[9..i]);
          if sym.None? || !sym.value.IsTristate() || sym.value !in user then user
          else user[sym.value := user[sym.value].(has := true, tri := NO)]
    else if line[0] == 'C' then
      if !StartsWith(line, "CONFIG_") then user
      else
        var i := IndexOf(line, '=', 7);
        if i == |line| then user
        else
          var sym := find(line[7..i]);
          if sym.None? || sym.value !in user then user
          else user[sym.value := SetSymVal(sym.value, LineValue(line[i + 1..]), user[sym.value])]
    else user
  }

  /** A symbol whose name can be found again in a line. */
  predicate Findable(s: Symbol, find: string -> Option<Symbol>) {
    && find(s.name) == Some(s)
    && s.name != ""
    && forall i :: 0 <= i < |s.name| ==> s.name[i] !in " =\n"
  }

  /** sym->def after the reset at the start of conf_read_simple */
  const CLEARED := User(false, "", NO)

  /** The user value that stands for the saved value x. */
  function Saved(s: Symbol, x: Value): User {
    if s.IsTristate() then User(true, "", x.tri) else User(true, x.val, NO)
  }

  lemma FindIndex(line: string, c: char, from: nat, i: nat)
    requires from <= i < |line| && line[i] == c && forall k :: from <= k < i ==> line[k] != c
    ensures IndexOf(line, c, from) == i
  {
  }

  /** What stands behind a line in the buffer */
  predicate LineEnd(end: string) {
    end == "" || end == "\n"
  }

  lemma LineValueIs(p: string, end: string)
    requires '\n' !in p && LineEnd(end)
    ensures LineValue(p + end) == if end == "" then p else StripReturn(p)
  {
    var q := p + end;
    if end == "" {
      assert q == p;
    } else {
      assert q[|p|] == '\n' && q[..|p|] == p;
      FindIndex(q, '\n', 0, |p|);
    }
  }

  /** Where the name ends in an assignment */
  lemma NameEnd(s: Symbol, q: string, find: string -> Option<Symbol>)
    requires Findable(s, find)
    ensures var line, n := "CONFIG_" + s.name + "=" + q, |s.name|;
            && StartsWith(line, "CONFIG_") && IndexOf(line, '=', 7) == 7 + n
            && line[7..7 + n] == s.name && line[8 + n..] == q
  {
    var line, n := "CONFIG_" + s.name + "=" + q, |s.name|;
    assert line[..7] == "CONFIG_" && line[7 + n] == '=';
    assert forall k :: 7 <= k < 7 + n ==> line[k] == s.name[k - 7] && s.name[k - 7] in s.name;
    FindIndex(line, '=', 7, 7 + n);
  }

  lemma ReadAssignment(s: Symbol, p: string, end: string, find: string -> Option<Symbol>, user: map<Symbol, User>)
    requires Findable(s, find) && s in user && '\n' !in p && LineEnd(end)
    ensures ReadLine("CONFIG_" + s.name + "=" + p + end, find, user)
            == user[s := SetSymVal(s, if end == "" then p else StripReturn(p), user[s])]
  {
    NameEnd(s, p + end, find);
    LineValueIs(p, end);
    Assoc("CONFIG_" + s.name + "=", p, end);
  }

  lemma ReadNotSet(s: Symbol, end: string, find: string -> Option<Symbol>, user: map<Symbol, User>)
    requires Findable(s, find) && s in user && s.IsTristate()
    ensures ReadLine("# CONFIG_" + s.name + " is not set" + end, find, user)
            == user[s := user[s].(has := true, tri := NO)]
  {
    var line, n := "# CONFIG_" + s.name + " is not set" + end, |s.name|;
    assert line[2..9] == "CONFIG_" && line[9..9 + n] == s.name && line[9 + n] == ' ';
    assert line[10 + n..] == "is not set" + end && StartsWith(line[10 + n..], "is not set");
    assert forall k :: 9 <= k < 9 + n ==> line[k] == s.name[k - 9] && s.name[k - 9] in s.name;
    FindIndex(line, ' ', 9, 9 + n);
  }

  /** How a symbol FOO is written: the forms that other tools read too */
  lemma WrittenForms(s: Symbol, x: Value)
    requires s.name == "FOO"
    ensures s.IsTristate() ==>
              WriteLine(s, x) == Some(if x.tri == YES then "CONFIG_FOO=y" else if x.tri == MOD then "CONFIG_FOO=m"
                                      else "# CONFIG_FOO is not set")
    ensures s.typ == Int || s.typ == Hex ==> WriteLine(s, x) == Some("CONFIG_FOO=" + x.val)
    ensures s.typ == Str && x.val == "a \"\\ b" ==> WriteLine(s, x) == Some("CONFIG_FOO=\"a \\\"\\\\ b\"")
  {
    assert "CONFIG_" + "FOO" + "=" == "CONFIG_FOO=";
    assert "CONFIG_FOO=" + "y" == "CONFIG_FOO=y" && "CONFIG_FOO=" + "m" == "CONFIG_FOO=m";
    assert "# CONFIG_" + "FOO" + " is not set" == "# CONFIG_FOO is not set";
    assert "CONFIG_FOO=" + ("\"" + ("a \\\"\\\\ b" + "\"")) == "CONFIG_FOO=\"a \\\"\\\\ b\"";
    assert Escape("a \"\\ b") == "a \\\"\\\\ b" by {
      EscapeText();
    }
  }

  lemma EscapeText()
    ensures Escape("a \"\\ b") == "a \\\"\\\\ b"
  {
    assert Escape("b") == "b" && Escape(" b") == " b";
    assert Escape("\\ b") == "\\\\ b" && Escape("\"\\ b") == "\\\"\\\\ b";
    assert Escape(" \"\\ b") == " \\\"\\\\ b";
  }

  /** A carriage return before the newline makes no difference to an assignment. */
  lemma ReadDos(s: Symbol, p: string, find: string -> Option<Symbol>, user: map<Symbol, User>)
    requires Findable(s, find) && s in user && '\n' !in p && (p == "" || p[|p| - 1] != '\r')
    ensures ReadLine("CONFIG_" + s.name + "=" + (p + "\r") + "\n", find, user)
            == ReadLine("CONFIG_" + s.name + "=" + p + "\n", find, user)
  {
    ReadAssignment(s, p + "\r", "\n", find, user);
    ReadAssignment(s, p, "\n", find, user);
    NoReturn(p);
    assert (p + "\r")[..|p|] == p;
  }

  /** A line of another form changes nothing. */
  lemma OtherLine(line: string, find: string -> Option<Symbol>, user: map<Symbol, User>)
    requires !StartsWith(line, "CONFIG_") && !(|line| >= 9 && line[0] == '#' && line[2..9] == "CONFIG_")
    ensures ReadLine(line, find, user) == user
  {
  }

  /** "=n", which is never written, is read like "is not set"; and m is nothing for a boolean. */
  lemma ReadOtherForms(s: Symbol, end: string, find: string -> Option<Symbol>, user: map<Symbol, User>)
    requires Findable(s, find) && s in user && s.IsTristate() && LineEnd(end)
    ensures ReadLine("CONFIG_" + s.name + "=" + "n" + end, find, user)
            == ReadLine("# CONFIG_" + s.name + " is not set" + end, find, user)
    ensures s.typ == Boolean ==> ReadLine("CONFIG_" + s.name + "=" + "m" + end, find, user) == user
  {
    ReadAssignment(s, "n", end, find, user);
    ReadAssignment(s, "m", end, find, user);
    ReadNotSet(s, end, find, user);
    NoReturn("n");
    NoReturn("m");
    assert user[s := user[s]] == user;
  }

  lemma NoReturn(p: string)
    requires p == "" || p[|p| - 1] != '\r'
    ensures StripReturn(p) == p
  {
  }

  /** A valid number does not end in a carriage return. */
  lemma ValidNumber(typ: SymbolType, p: string)
    requires (typ == Int || typ == Hex) && StringValid(typ, p)
    ensures p != "" && p[|p| - 1] != '\r'
  {
    var d := if typ == Int then AfterSign(p) else AfterPrefix(p);
    assert d[|d| - 1] == p[|p| - 1];
    assert IsHexDigit(d[|d| - 1]);
  }

  /** Reading a written line restores the value, for numbers exactly when they are valid. */
  lemma LineRoundTrip(s: Symbol, x: Value, end: string, find: string -> Option<Symbol>, user: map<Symbol, User>)
    requires Findable(s, find) && s in user && user[s] == CLEARED && LineEnd(end)
    requires WriteLine(s, x).Some? && '\n' !in WriteLine(s, x).value
    ensures var user' := ReadLine(WriteLine(s, x).value + end, find, user);
            && (s.typ != Int && s.typ != Hex && !(s.typ == Boolean && x.tri == MOD) ==> user' == user[s := Saved(s, x)])
            && (s.typ == Int || s.typ == Hex ==> (user' == user[s := Saved(s, x)] <==> StringValid(s.typ, x.val)))
  {
    if s.IsTristate() {
      if x.tri == NO {
        ReadNotSet(s, end, find, user);
      } else {
        var p := if x.tri == MOD then "m" else "y";
        assert p[0] == if x.tri == MOD then 'm' else 'y';
        NoReturn(p);
        ReadAssignment(s, p, end, find, user);
      }
    } else if s.typ == Str {
      StringLineRoundTrip(s, x.val, end, find, user);
    } else {
      NumberLineRoundTrip(s, x.val, end, find, user);
    }
  }

  lemma NumberLineRoundTrip(s: Symbol, val: string, end: string, find: string -> Option<Symbol>,
                            user: map<Symbol, User>)
    requires Findable(s, find) && s in user && user[s] == CLEARED && LineEnd(end)
    requires (s.typ == Int || s.typ == Hex) && '\n' !in "CONFIG_" + s.name + "=" + val
    ensures ReadLine("CONFIG_" + s.name + "=" + val + end, find, user) == user[s := User(true, val, NO)]
            <==> StringValid(s.typ, val)
  {
    assert forall c <- val :: c in "CONFIG_" + s.name + "=" + val;
    ReadAssignment(s, val, end, find, user);
    var p := if end == "" then val else StripReturn(val);
    if StringValid(s.typ, val) {
      ValidNumber(s.typ, val);
      NoReturn(val);
    }
    assert user[s := SetSymVal(s, p, user[s])][s] == SetSymVal(s, p, user[s]);
    assert user[s := User(true, val, NO)][s] == User(true, val, NO);
  }

  /** A quoted value as conf_set_sym_val sees it. */
  lemma QuotedValue(s: Symbol, val: string, u: User)
    requires s.typ == Str
    ensures var p := QuotedText(val);
            StripReturn(p) == p && SetSymVal(s, p, u) == u.(has := true, val := val)
  {
    var body := Escape(val) + "\"";
    var p := "\"" + body;
    EscapeRoundTrip(val, "");
    assert body + "" == body;
    assert p[0] == '"' && p[1..] == body && p[|p| - 1] == '"';
  }

  lemma StringLineRoundTrip(s: Symbol, val: string, end: string, find: string -> Option<Symbol>,
                            user: map<Symbol, User>)
    requires Findable(s, find) && s in user && user[s] == CLEARED && s.typ == Str && LineEnd(end)
    requires '\n' !in StringLine(s, val)
    ensures ReadLine(StringLine(s, val) + end, find, user) == user[s := User(true, val, NO)]
  {
    var p := QuotedText(val);
    assert forall c <- p :: c in "CONFIG_" + s.name + "=" + p;
    QuotedValue(s, val, user[s]);
    ReadAssignment(s, p, end, find, user);
  }

  // -------------------------------------------------------------- whole files

  /** The text of the file: the lines of the given symbols */
  function WriteText(syms: seq<Symbol>, v: Valuation): string {
    if syms == [] then "" else Printed(WriteLine(syms[0], v(syms[0]))) + WriteText(syms[1..], v)
  }

  function Printed(line: Option<string>): string {
    if line.None? then "" else line.value + "\n"
  }

  lemma {:induction false} WriteSnoc(syms: seq<Symbol>, s: Symbol, v: Valuation)
    ensures WriteText(syms + [s], v) == WriteText(syms, v) + Printed(WriteLine(s, v(s)))
  {
    if syms == [] {
      assert [] + [s] == [s] && [s][1..] == [];
    } else {
      assert (syms + [s])[1..] == syms[1..] + [s];
      WriteSnoc(syms[1..], s, v);
      Assoc(Printed(WriteLine(syms[0], v(syms[0]))), WriteText(syms[1..], v), Printed(WriteLine(s, v(s))));
    }
  }

  /** char line[1024]: fgets leaves room for the terminating NUL. */
  const LINE_MAX: nat := 1023

  /** How much of the text ahead fgets takes: up to and with the newline, if the buffer holds that. */
  function ChunkLength(text: string): (n: nat)
    requires text != ""
    ensures 1 <= n <= |text|
  {
    var i := IndexOf(text, '\n', 0);
    var n := if i < |text| then i + 1 else i;
    if n <= LINE_MAX then n else LINE_MAX
  }

  function ReadText(text: string, find: string -> Option<Symbol>, user: map<Symbol, User>): map<Symbol, User>
    decreases |text|
  {
    if text == "" then user
    else ReadText(text[ChunkLength(text)..], find, ReadLine(text[..ChunkLength(text)], find, user))
  }

  /** fgets(line, sizeof(line), in), from position pos of the file */
  method Fgets(text: string, pos: nat) returns (line: string, end: nat)
    requires pos < |text|
    ensures pos < end <= |text| && line == text[pos..end] && end - pos == ChunkLength(text[pos..])
  {
    line, end := "", pos;
    ghost var t := text[pos..];
    while end < |text| && |line| < LINE_MAX
      invariant pos <= end <= |text| && line == text[pos..end] && |line| <= LINE_MAX
      invariant forall k :: 0 <= k < |line| ==> t[k] != '\n'
    {
      line, end := line + [text[end]], end + 1;
      if text[end - 1] == '\n' {
        FindIndex(t, '\n', 0, |line| - 1);
        return;
      }
    }
    assert IndexOf(t, '\n', 0) >= |line|;
  }

  /** The fgets loop of conf_read_simple */
  method ReadFile(text: string, find: string -> Option<Symbol>, user0: map<Symbol, User>)
    returns (user: map<Symbol, User>)
    ensures user == ReadText(text, find, user0)
  {
    user := user0;
    var pos := 0;
    assert text[0..] == text;
    while pos < |text|
      invariant 0 <= pos <= |text|
      invariant ReadText(text, find, user0) == ReadText(text[pos..], find, user)
    {
      ghost var ahead := text[pos..];
      var line, end := Fgets(text, pos);
      assert ahead[..end - pos] == line && ahead[end - pos..] == text[end..];
      user, pos := ReadLine(line, find, user), end;
    }
  }

  predicate Restorable(s: Symbol, x: Value) {
    && (s.typ == Int || s.typ == Hex ==> StringValid(s.typ, x.val))
    && (s.typ == Boolean ==> x.tri != MOD)
  }

  /** The line has its newline only at its end, and before that no more than the buffer holds. */
  predicate OneLine(line: string) {
    '\n' !in line && |line| <= LINE_MAX
  }

  predicate PrintsOneLine(s: Symbol, x: Value) {
    WriteLine(s, x).Some? ==> OneLine(WriteLine(s, x).value)
  }

  lemma ReadChunk(chunk: string, rest: string, find: string -> Option<Symbol>, user: map<Symbol, User>)
    requires chunk != "" && ChunkLength(chunk + rest) == |chunk|
    ensures ReadText(chunk + rest, find, user) == ReadText(rest, find, ReadLine(chunk, find, user))
  {
    var text := chunk + rest;
    assert text[..|chunk|] == chunk && text[|chunk|..] == rest;
  }

  lemma NewlineAt(line: string, rest: string)
    requires '\n' !in line
    ensures IndexOf(line + "\n" + rest, '\n', 0) == |line|
  {
    var text := line + "\n" + rest;
    assert text[|line|] == '\n' && forall k :: 0 <= k < |line| ==> text[k] == line[k] && line[k] in line;
    FindIndex(text, '\n', 0, |line|);
  }

  /** The first line of a text is read as a whole; one that fills the buffer leaves its newline to be
      read as an empty line. */
  lemma ReadFirst(line: string, rest: string, find: string -> Option<Symbol>, user: map<Symbol, User>)
    requires OneLine(line)
    ensures ReadText(line + "\n" + rest, find, user)
            == ReadText(rest, find, ReadLine(line + (if |line| < LINE_MAX then "\n" else ""), find, user))
  {
    NewlineAt(line, rest);
    if |line| < LINE_MAX {
      ReadChunk(line + "\n", rest, find, user);
    } else {
      Assoc(line, "\n", rest);
      assert line + "" == line;
      ReadChunk(line, "\n" + rest, find, user);
      NewlineAt("", rest);
      assert "" + "\n" + rest == "\n" + rest;
      ReadChunk("\n", rest, find, ReadLine(line, find, user));
    }
  }

  predicate Distinct(syms: seq<Symbol>) {
    forall i, j :: 0 <= i < j < |syms| ==> syms[i] != syms[j]
  }

  /** Reading a written file restores every written value and sets nothing else. */
  lemma {:induction false} FileRoundTrip(syms: seq<Symbol>, v: Valuation, find: string -> Option<Symbol>,
                                         user: map<Symbol, User>)
    requires Distinct(syms)
    requires forall s <- syms :: Findable(s, find) && s in user && user[s] == CLEARED
    requires forall s <- syms :: Restorable(s, v(s)) && PrintsOneLine(s, v(s))
    ensures var user' := ReadText(WriteText(syms, v), find, user);
            && user'.Keys == user.Keys
            && forall s: Symbol :: s in user ==>
                 user'[s] == if s in syms && WriteLine(s, v(s)).Some? then Saved(s, v(s)) else user[s]
  {
    if syms != [] {
      var s, rest := syms[0], syms[1..];
      assert s in syms && forall r <- rest :: r in syms && r != s;
      var l := WriteLine(s, v(s));
      if l.Some? {
        RestoreLine(s, v(s), WriteText(rest, v), find, user);
        FileRoundTrip(rest, v, find, user[s := Saved(s, v(s))]);
      } else {
        assert "" + WriteText(rest, v) == WriteText(rest, v);
        FileRoundTrip(rest, v, find, user);
      }
    }
  }

  lemma RestoreLine(s: Symbol, x: Value, rest: string, find: string -> Option<Symbol>, user: map<Symbol, User>)
    requires Findable(s, find) && s in user && user[s] == CLEARED
    requires WriteLine(s, x).Some? && Restorable(s, x) && PrintsOneLine(s, x)
    ensures ReadText(WriteLine(s, x).value + "\n" + rest, find, user) == ReadText(rest, find, user[s := Saved(s, x)])
  {
    var line := WriteLine(s, x).value;
    LineRoundTrip(s, x, if |line| < LINE_MAX then "\n" else "", find, user);
    ReadFirst(line, rest, find, user);
  }

  // ------------------------------------------- which strings survive

  lemma {:induction false} EscapeNewline(s: string)
    ensures '\n' in Escape(s) <==> '\n' in s
  {
    if s != "" {
      EscapeNewline(s[1..]);
      assert s == [s[0]] + s[1..];
    }
  }

  /** An escaped text that is cut off has no closing quote. */
  lemma {:induction false} UnescapeOpen(s: string, k: nat)
    requires k <= |Escape(s)|
    ensures Unescape(Escape(s)[..k]).None?
  {
    if s != "" && k > 0 {
      var t, n, rest := Escape(s)[..k], if Special(s[0]) then 2 else 1, Escape(s[1..]);
      if k >= n {
        UnescapeOpen(s[1..], k - n);
        assert t[n..] == rest[..k - n];
      }
    }
  }

  /** In an escaped text every quote follows a backslash. */
  lemma {:induction false} EscapedQuote(s: string, k: nat)
    requires k < |Escape(s)| && Escape(s)[k] == '"'
    ensures k > 0 && Escape(s)[k - 1] == '\\'
  {
    var n := if Special(s[0]) then 2 else 1;
    if k >= n {
      EscapedQuote(s[1..], k - n);
    }
  }

  lemma {:induction false} UnescapeNewline(t: string)
    requires '\n' !in t && Unescape(t).Some?
    ensures '\n' !in Unescape(t).value
  {
    if t[0] != '"' {
      var k := if t[0] == '\\' then 1 else 0;
      assert t[k] in t && forall c <- t[k + 1..] :: c in t;
      UnescapeNewline(t[k + 1..]);
    }
  }

  lemma SetNewline(s: Symbol, p: string, u: User)
    requires '\n' !in p && '\n' !in u.val
    ensures '\n' !in SetSymVal(s, p, u).val
  {
    if s.typ == Str && p != "" && Unescape(p[1..]).Some? {
      assert forall c <- p[1..] :: c in p;
      UnescapeNewline(p[1..]);
    }
  }

  /** Nothing that is read contains a newline. */
  lemma ReadLineNewline(line: string, find: string -> Option<Symbol>, user: map<Symbol, User>, s: Symbol)
    requires s in user && '\n' !in user[s].val
    ensures var user' := ReadLine(line, find, user); s in user' && '\n' !in user'[s].val
  {
    if StartsWith(line, "CONFIG_") {
      var i := IndexOf(line, '=', 7);
      if i < |line| {
        var p := LineValue(line[i + 1..]);
        assert '\n' !in p;
        SetNewline(s, p, user[s]);
      }
    }
  }

  lemma {:induction false} ReadTextNewline(text: string, find: string -> Option<Symbol>, user: map<Symbol, User>,
                                           s: Symbol)
    requires s in user && '\n' !in user[s].val
    ensures var user' := ReadText(text, find, user); s in user' && '\n' !in user'[s].val
    decreases |text|
  {
    if text != "" {
      var n := ChunkLength(text);
      ReadLineNewline(text[..n], find, user, s);
      ReadTextNewline(text[n..], find, ReadLine(text[..n], find, user), s);
    }
  }

  /** sym_find finds a symbol of that name. */
  ghost predicate Lookup(find: string -> Option<Symbol>) {
    forall name: string :: find(name).Some? ==> find(name).value.name == name
  }

  /** In a printed string, only the two outer quotes can follow an equals sign. */
  lemma InnerQuote(s: Symbol, val: string, q: nat)
    requires (forall c <- s.name :: c != '=') && 0 < q < |StringLine(s, val)| - 1
    requires StringLine(s, val)[q] == '"' && q != 8 + |s.name|
    ensures StringLine(s, val)[q - 1] != '='
  {
    var n, body, line := |s.name|, Escape(val), StringLine(s, val);
    assert line[8 + n] == '"' && line[9 + n..|line| - 1] == body;
    if q > 9 + n {
      EscapedQuote(val, q - 9 - n);
      assert body[q - 10 - n] == line[q - 1];
    } else if 7 < q < 8 + n {
      assert line[q - 1] == s.name[q - 8] && s.name[q - 8] in s.name;
    }
  }

  /** user' has the same value for s. */
  ghost predicate Keeps(s: Symbol, user: map<Symbol, User>, user': map<Symbol, User>) {
    s in user && s in user' && user'[s] == user[s]
  }

  /** A piece of the line that does not begin where the line does sets s to nothing: its value would
      have to begin with one of those two quotes. */
  lemma PieceSilent(s: Symbol, val: string, text: string, j: nat, n: nat, find: string -> Option<Symbol>,
                    user: map<Symbol, User>)
    requires Findable(s, find) && Lookup(find) && s in user && s.typ == Str
    requires text == StringLine(s, val) + "\n" && 0 < j <= j + n <= |text|
    ensures Keeps(s, user, ReadLine(text[j..j + n], find, user))
  {
    var piece := text[j..j + n];
    if StartsWith(piece, "CONFIG_") {
      var i := IndexOf(piece, '=', 7);
      if i < n && find(piece[7..i]) == Some(s) {
        PieceValue(s, val, j, n, i, user[s]);
      }
    }
  }

  lemma PieceValue(s: Symbol, val: string, j: nat, n: nat, i: nat, u: User)
    requires s.typ == Str && (forall c <- s.name :: c != '=') && 0 < j <= j + n <= |StringLine(s, val)| + 1
    requires var piece := (StringLine(s, val) + "\n")[j..j + n];
             7 <= i < n && piece[i] == '=' && piece[7..i] == s.name
    ensures SetSymVal(s, LineValue((StringLine(s, val) + "\n")[j..j + n][i + 1..]), u) == u
  {
    var text, q := StringLine(s, val) + "\n", j + i + 1;
    var rest := text[j..j + n][i + 1..];
    var p := LineValue(rest);
    if p != "" && p[0] == '"' {
      assert rest[0] == text[q] && text[q - 1] == '=';
      if q < |text| - 2 && q != 8 + |s.name| {
        InnerQuote(s, val, q);
      }
      assert |text[j..j + n][7..i]| == |s.name|;
      assert rest == "\"" + (if |rest| == 1 then "" else "\n");
      LineValueIs("\"", if |rest| == 1 then "" else "\n");
      assert p == "\"" && p[1..] == "";
    }
  }

  /** So does everything that is read after the first piece. */
  lemma {:induction false} RestSilent(s: Symbol, val: string, text: string, rest: string,
                                      find: string -> Option<Symbol>, user: map<Symbol, User>)
    requires Findable(s, find) && Lookup(find) && s in user && s.typ == Str
    requires text == StringLine(s, val) + "\n" && |rest| < |text| && rest == text[|text| - |rest|..]
    ensures Keeps(s, user, ReadText(rest, find, user))
    decreases |rest|
  {
    if rest != "" {
      var n, j := ChunkLength(rest), |text| - |rest|;
      var piece, left := rest[..n], rest[n..];
      assert piece == text[j..j + n] && left == text[|text| - |left|..];
      PieceSilent(s, val, text, j, n, find, user);
      RestSilent(s, val, text, left, find, ReadLine(piece, find, user));
    }
  }

  /** A string whose closing quote is cut off is refused. */
  lemma CutValue(s: Symbol, val: string, k: nat, u: User)
    requires s.typ == Str && k <= |Escape(val)| + 1
    ensures SetSymVal(s, QuotedText(val)[..k], u) == u
  {
    if k > 0 {
      UnescapeOpen(val, k - 1);
      assert QuotedText(val)[..k][1..] == Escape(val)[..k - 1];
    }
  }

  /** A line that does not fit the buffer sets nothing: the piece read first has no closing quote. */
  lemma FirstSilent(s: Symbol, val: string, find: string -> Option<Symbol>, user: map<Symbol, User>)
    requires Findable(s, find) && Lookup(find) && s in user && s.typ == Str
    requires |StringLine(s, val)| > LINE_MAX && '\n' !in StringLine(s, val)
    ensures Keeps(s, user, ReadLine(StringLine(s, val)[..LINE_MAX], find, user))
  {
    var line, n := StringLine(s, val), |s.name|;
    var piece := line[..LINE_MAX];
    if 7 + n < LINE_MAX {
      var p := piece[8 + n..];
      assert piece == "CONFIG_" + s.name + "=" + p;
      assert forall c <- p :: c in line;
      ReadAssignment(s, p, "", find, user);
      assert piece + "" == piece;
      assert p == QuotedText(val)[..|p|];
      CutValue(s, val, |p|, user[s]);
    } else {
      assert forall k :: 7 <= k < LINE_MAX ==> line[k] == s.name[k - 7] && s.name[k - 7] in s.name;
    }
  }

  /** A string symbol read back from its own line has its value again exactly when the value contains
      no newline and the line fits the buffer. */
  lemma StringFileExact(s: Symbol, val: string, find: string -> Option<Symbol>, user: map<Symbol, User>)
    requires Findable(s, find) && Lookup(find) && s in user && s.typ == Str && user[s] == CLEARED
    ensures var user' := ReadText(StringLine(s, val) + "\n", find, user);
            s in user' && (user'[s] == User(true, val, NO) <==> '\n' !in val && |StringLine(s, val)| <= LINE_MAX)
  {
    var line := StringLine(s, val);
    var text := line + "\n";
    NewlineOfLine(s, val);
    ReadTextNewline(text, find, user, s);
    if '\n' !in val {
      if |line| <= LINE_MAX {
        StringLineRoundTrip(s, val, if |line| < LINE_MAX then "\n" else "", find, user);
        ReadFirst(line, "", find, user);
        assert text + "" == text;
      } else {
        assert forall k :: 0 <= k < |line| ==> line[k] in line;
        FindIndex(text, '\n', 0, |line|);
        assert text[..LINE_MAX] == line[..LINE_MAX];
        FirstSilent(s, val, find, user);
        RestSilent(s, val, text, text[LINE_MAX..], find, ReadLine(line[..LINE_MAX], find, user));
      }
    }
  }

  lemma NewlineOfLine(s: Symbol, val: string)
    requires '\n' !in s.name
    ensures '\n' in StringLine(s, val) <==> '\n' in val
  {
    EscapeNewline(val);
  }
}
