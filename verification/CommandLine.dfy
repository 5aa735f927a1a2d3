/** Quoting of process arguments for Windows, and the rules by which the C runtime splits a command line. */
module CommandLine {
  import opened Bytes

  const SPACE: byte := 0x20
  const TAB: byte := 9
  const QUOTE: byte := 0x22
  const BACKSLASH: byte := 0x5C

  predicate Blank(c: byte) {
    c == SPACE || c == TAB
  }

  function Slashes(n: nat): (r: seq<byte>)
    ensures |r| == n
  {
    if n == 0 then [] else Slashes(n - 1) + [BACKSLASH]
  }

  // ----- the splitting rules: 2n or 2n + 1 backslashes before a quote, blanks outside quotes, [] inside quotes

  /** The arguments in `s`, with `cur` read so far of the current one, `n` backslashes pending and `q` inside quotes. */
  function Scan(s: seq<byte>, q: bool, n: nat, cur: seq<byte>): seq<seq<byte>>
    decreases |s|, 1
  {
    if s == [] then [cur + Slashes(n)]
    else if s[0] == BACKSLASH then Scan(s[1..], q, n + 1, cur)
    else if s[0] == QUOTE then
      var half := cur + Slashes(n / 2);
      if n % 2 == 1 then Scan(s[1..], q, 0, half + [QUOTE])
      else if q && |s| > 1 && s[1] == QUOTE then Scan(s[2..], q, 0, half + [QUOTE])
      else Scan(s[1..], !q, 0, half)
    else if !q && Blank(s[0]) then [cur + Slashes(n)] + Split(s[1..])
    else Scan(s[1..], q, 0, cur + Slashes(n) + [s[0]])
  }

  /** The arguments in `s`, from between two of them. */
  function Split(s: seq<byte>): seq<seq<byte>>
    decreases |s|, 2
  {
    if s == [] then []
    else if Blank(s[0]) then Split(s[1..])
    else Scan(s, false, 0, [])
  }

  // ----- what the quoting routine appends

  predicate Special(c: byte) {
    Blank(c) || c == QUOTE
  }

  ghost predicate NeedsQuotes(s: seq<byte>) {
    s == [] || exists i :: 0 <= i < |s| && Special(s[i])
  }

  /** The inside of a quoted argument, with `n` backslashes not yet written. */
  function Inside(s: seq<byte>, n: nat): seq<byte>
    decreases |s|
  {
    if s == [] then Slashes(2 * n)
    else if s[0] == BACKSLASH then Inside(s[1..], n + 1)
    else if s[0] == QUOTE then Slashes(2 * n) + [BACKSLASH, QUOTE] + Inside(s[1..], 0)
    else Slashes(n) + [s[0]] + Inside(s[1..], 0)
  }

  ghost function Quoted(s: seq<byte>): seq<byte> {
    if NeedsQuotes(s) then [QUOTE] + Inside(s, 0) + [QUOTE] else s
  }

  /** The argument part of a command line. */
  ghost function ArgumentPart(args: seq<seq<byte>>): seq<byte> {
    if args == [] then [] else ArgumentPart(args[..|args| - 1]) + [SPACE] + Quoted(args[|args| - 1])
  }

  // ----- splitting undoes quoting

  lemma {:induction false} SlashesJoin(a: nat, b: nat)
    ensures Slashes(a) + Slashes(b) == Slashes(a + b)
  {
    if b > 0 {
      SlashesJoin(a, b - 1);
      assert Slashes(a) + Slashes(b) == (Slashes(a) + Slashes(b - 1)) + [BACKSLASH];
    } else {
      assert Slashes(a) + [] == Slashes(a);
    }
  }

  /** Backslashes are only counted until something else comes. */
  lemma {:induction false} ScanSlashes(k: nat, t: seq<byte>, q: bool, n: nat, cur: seq<byte>)
    ensures Scan(Slashes(k) + t, q, n, cur) == Scan(t, q, n + k, cur)
  {
    if k == 0 {
      assert Slashes(0) + t == t;
    } else {
      SlashesJoin(1, k - 1);
      assert Slashes(1) == [BACKSLASH];
      var s := Slashes(k) + t;
      assert s[0] == BACKSLASH && s[1..] == Slashes(k - 1) + t;
      ScanSlashes(k - 1, t, q, n + 1, cur);
    }
  }

  predicate Ends(rest: seq<byte>) {
    rest == [] || Blank(rest[0])
  }

  /** A quoted argument is read back up to its closing quote. */
  lemma {:induction false} ScanInside(s: seq<byte>, n: nat, rest: seq<byte>, cur: seq<byte>)
    requires Ends(rest)
    ensures Scan(Inside(s, n) + [QUOTE] + rest, true, 0, cur) == Scan(rest, false, 0, cur + Slashes(n) + s)
    decreases |s|
  {
    var all := Inside(s, n) + [QUOTE] + rest;
    if s == [] {
      ScanSlashes(2 * n, [QUOTE] + rest, true, 0, cur);
      assert all == Slashes(2 * n) + ([QUOTE] + rest);
      assert ([QUOTE] + rest)[1..] == rest;
      assert cur + Slashes(n) == cur + Slashes(n) + s;
    } else if s[0] == BACKSLASH {
      ScanInside(s[1..], n + 1, rest, cur);
      assert cur + Slashes(n + 1) + s[1..] == cur + Slashes(n) + s;
    } else if s[0] == QUOTE {
      QuoteInside(s, n, rest, cur);
    } else {
      OtherInside(s, n, rest, cur);
    }
  }

  lemma {:induction false} QuoteInside(s: seq<byte>, n: nat, rest: seq<byte>, cur: seq<byte>)
    requires Ends(rest) && s != [] && s[0] == QUOTE
    ensures Scan(Inside(s, n) + [QUOTE] + rest, true, 0, cur) == Scan(rest, false, 0, cur + Slashes(n) + s)
    decreases |s|, 0
  {
    var tail := Inside(s[1..], 0) + [QUOTE] + rest;
    assert Slashes(2 * n + 1) == Slashes(2 * n) + [BACKSLASH];
    assert Inside(s, n) + [QUOTE] + rest == Slashes(2 * n + 1) + ([QUOTE] + tail);
    ScanSlashes(2 * n + 1, [QUOTE] + tail, true, 0, cur);
    assert ([QUOTE] + tail)[1..] == tail;
    ScanInside(s[1..], 0, rest, cur + Slashes(n) + [QUOTE]);
    assert cur + Slashes(n) + [QUOTE] + Slashes(0) + s[1..] == cur + Slashes(n) + s;
  }

  lemma {:induction false} OtherInside(s: seq<byte>, n: nat, rest: seq<byte>, cur: seq<byte>)
    requires Ends(rest) && s != [] && s[0] != QUOTE && s[0] != BACKSLASH
    ensures Scan(Inside(s, n) + [QUOTE] + rest, true, 0, cur) == Scan(rest, false, 0, cur + Slashes(n) + s)
    decreases |s|, 0
  {
    var tail := Inside(s[1..], 0) + [QUOTE] + rest;
    assert Inside(s, n) + [QUOTE] + rest == Slashes(n) + ([s[0]] + tail);
    ScanSlashes(n, [s[0]] + tail, true, 0, cur);
    assert ([s[0]] + tail)[1..] == tail;
    ScanInside(s[1..], 0, rest, cur + Slashes(n) + [s[0]]);
    assert cur + Slashes(n) + [s[0]] + Slashes(0) + s[1..] == cur + Slashes(n) + s;
  }

  /** An argument without blanks and quotes is read back as it is. */
  lemma {:induction false} ScanPlain(s: seq<byte>, n: nat, rest: seq<byte>, cur: seq<byte>)
    requires Ends(rest) && forall i :: 0 <= i < |s| ==> !Special(s[i])
    ensures Scan(s + rest, false, n, cur) == [cur + Slashes(n) + s] + Split(rest)
    decreases |s|
  {
    var all := s + rest;
    if s == [] {
      assert all == rest && cur + Slashes(n) + s == cur + Slashes(n);
    } else {
      assert all[0] == s[0] && all[1..] == s[1..] + rest;
      if s[0] == BACKSLASH {
        ScanPlain(s[1..], n + 1, rest, cur);
        assert cur + Slashes(n + 1) + s[1..] == cur + Slashes(n) + s;
      } else {
        ScanPlain(s[1..], 0, rest, cur + Slashes(n) + [s[0]]);
        assert cur + Slashes(n) + [s[0]] + Slashes(0) + s[1..] == cur + Slashes(n) + s;
      }
    }
  }

  /** One argument, whatever follows it. */
  lemma SplitQuoted(s: seq<byte>, rest: seq<byte>)
    requires Ends(rest)
    ensures Split(Quoted(s) + rest) == [s] + Split(rest)
  {
    if NeedsQuotes(s) {
      SplitInQuotes(s, rest);
      assert Quoted(s) + rest == [QUOTE] + (Inside(s, 0) + [QUOTE] + rest);
    } else {
      SplitPlain(s, rest);
    }
  }

  lemma SplitInQuotes(s: seq<byte>, rest: seq<byte>)
    requires Ends(rest)
    ensures Split([QUOTE] + (Inside(s, 0) + [QUOTE] + rest)) == [s] + Split(rest)
  {
    var t := Inside(s, 0) + [QUOTE] + rest;
    assert ([QUOTE] + t)[1..] == t;
    assert Scan([QUOTE] + t, false, 0, []) == Scan(t, true, 0, []) by {
      assert [] + Slashes(0) == [];
    }
    ScanInside(s, 0, rest, []);
    assert [] + Slashes(0) + s == s;
    EndOfArgument(rest, s);
  }

  lemma EndOfArgument(rest: seq<byte>, cur: seq<byte>)
    requires Ends(rest)
    ensures Scan(rest, false, 0, cur) == [cur] + Split(rest)
  {
    assert cur + Slashes(0) == cur;
  }

  lemma SplitPlain(s: seq<byte>, rest: seq<byte>)
    requires Ends(rest) && !NeedsQuotes(s)
    ensures Split(s + rest) == [s] + Split(rest)
  {
    ScanPlain(s, 0, rest, []);
    assert [] + Slashes(0) + s == s;
    assert (s + rest)[0] == s[0];
  }

  /** Splitting the argument part gives back the arguments, whatever they contain. */
  lemma {:induction false} SplitArgumentPart(args: seq<seq<byte>>, rest: seq<byte>)
    requires Ends(rest)
    ensures Split(ArgumentPart(args) + rest) == args + Split(rest)
  {
    if args == [] {
      assert [] + rest == rest;
      assert args + Split(rest) == Split(rest);
    } else {
      var front, last := args[..|args| - 1], args[|args| - 1];
      var tail := [SPACE] + (Quoted(last) + rest);
      Regroup(ArgumentPart(front), Quoted(last), rest);
      SplitArgumentPart(front, tail);
      AfterBlank(last, rest);
      assert front + ([last] + Split(rest)) == args + Split(rest);
    }
  }

  lemma Regroup(a: seq<byte>, b: seq<byte>, c: seq<byte>)
    ensures a + [SPACE] + b + c == a + ([SPACE] + (b + c))
  {
  }

  lemma AfterBlank(s: seq<byte>, rest: seq<byte>)
    requires Ends(rest)
    ensures Split([SPACE] + (Quoted(s) + rest)) == [s] + Split(rest)
  {
    var tail := [SPACE] + (Quoted(s) + rest);
    assert tail[1..] == Quoted(s) + rest;
    SplitQuoted(s, rest);
  }

  // ----- appending UTF-8 text

  /** Bytes of the sequence that a lead byte starts, 0 for a byte that starts none. */
  function Width(c: byte): nat {
    if c < 0x80 then 1
    else if c < 0xC0 then 0
    else if c < 0xE0 then 2
    else if c < 0xF0 then 3
    else if c < 0xF8 then 4
    else 0
  }

  /** A byte inside a sequence. */
  predicate Inner(c: byte) {
    0x80 <= c < 0xC0
  }

  /** The text consists of whole sequences, as the conversion from UTF-16 makes them. */
  predicate Whole(s: seq<byte>)
    decreases |s|
  {
    s == [] || (0 < Width(s[0]) <= |s| && (forall i :: 1 <= i < Width(s[0]) ==> Inner(s[i])) && Whole(s[Width(s[0])..]))
  }

  ghost predicate Ascii(s: seq<byte>) {
    forall i :: 0 <= i < |s| ==> s[i] < 0x80
  }

  /** A single byte is a whole sequence only if it is ASCII. */
  lemma WholeByte(c: byte)
    ensures Whole([c]) <==> c < 0x80
  {
    if c < 0x80 {
      assert [c][1..] == [];
    }
  }

  /** ASCII text is whole. */
  lemma {:induction false} WholeAscii(s: seq<byte>)
    requires Ascii(s)
    ensures Whole(s)
  {
    if s != [] {
      WholeAscii(s[1..]);
    }
  }

  /** A C string that may be missing. */
  datatype CString = Null | Text(bytes: seq<byte>)

  /** What stands in front of the first NUL. */
  function Cut(s: seq<byte>): seq<byte> {
    if s == [] || s[0] == 0 then [] else [s[0]] + Cut(s[1..])
  }

  lemma {:induction false} CutClean(s: seq<byte>)
    ensures 0 !in Cut(s) && (Cut(s) == s <==> 0 !in s)
  {
    if s != [] && s[0] != 0 {
      CutClean(s[1..]);
      assert s == [s[0]] + s[1..];
      assert Cut(s) == s ==> Cut(s)[1..] == s[1..];
    }
  }

  lemma {:induction false} CutBehind(s: seq<byte>, k: nat)
    requires k <= |s| && forall i :: 0 <= i < k ==> s[i] != 0
    ensures Cut(s) == s[..k] + Cut(s[k..])
  {
    if k == 0 {
      assert s[..0] + Cut(s[0..]) == Cut(s[0..]) && s[0..] == s;
    } else {
      var t := s[1..];
      CutBehind(t, k - 1);
      assert t[k - 1..] == s[k..] && [s[0]] + t[..k - 1] == s[..k];
      assert [s[0]] + (t[..k - 1] + Cut(s[k..])) == [s[0]] + t[..k - 1] + Cut(s[k..]);
    }
  }

  /** A NUL does not cut a sequence in two. */
  lemma {:induction false} CutWhole(s: seq<byte>)
    requires Whole(s)
    ensures Whole(Cut(s))
    decreases |s|
  {
    if s != [] && s[0] != 0 {
      var w := Width(s[0]);
      CutBehind(s, w);
      CutWhole(s[w..]);
      var r := Cut(s);
      assert r[..w] == s[..w] && r[w..] == Cut(s[w..]);
    }
  }

  /** XString_toUtf8 of a string with these bytes: it ends at the first NUL, and there is none of an empty string. */
  function ToUtf8(s: seq<byte>): CString {
    if Cut(s) == [] then Null else Text(Cut(s))
  }

  /** A C string holds no NUL, and here whole sequences. */
  ghost predicate Clean(c: CString) {
    forall i {:trigger Unlock(i)} :: Unlock(i) ==> c.Text? ==> 0 !in c.bytes && Whole(c.bytes)
  }

  /** The quoting routine can append a text: it is there, and no byte above ASCII has to be appended on its own. */
  ghost predicate CanQuote(c: CString) {
    c.Text? && OneByOne(c.bytes)
  }

  /** A text in quotes is appended byte by byte; to be looked into only where Unlock(...) is asserted. */
  ghost predicate OneByOne(s: seq<byte>) {
    forall i {:trigger Unlock(i)} :: Unlock(i) ==> (NeedsQuotes(s) ==> Ascii(s))
  }

  /** For one, e with acute accent, a blank and x cannot be appended; its bytes are whole. */
  lemma AccentedBlank()
    ensures var e := [0xC3, 0xA9, SPACE, 0x78];
            Whole(e) && NeedsQuotes(e) && !CanQuote(ToUtf8(e))
  {
    var e: seq<byte> := [0xC3, 0xA9, SPACE, 0x78];
    WholeAscii([SPACE, 0x78]);
    assert e[2..] == [SPACE, 0x78];
    assert Special(e[2]) && e[0] >= 0x80;
    CutClean(e);
    assert Unlock(0);
  }

  /** Nor can a given argument that is empty, or starts with NUL. */
  lemma EmptyGiven(rest: seq<byte>)
    ensures !CanQuote(CStringOf(Given([]))) && !CanQuote(CStringOf(Given([0] + rest)))
  {
    assert Unlock(0);
    assert ([0] + rest)[0] == 0;
  }

  // ----- the routines

  datatype Argument = Missing | Given(text: seq<byte>)

  function TextOf(a: Argument): seq<byte> {
    if a.Missing? then [] else a.text
  }

  /** What the quoting routine is given for an argument. */
  function CStringOf(a: Argument): CString {
    if a.Missing? then Text([]) else ToUtf8(a.text)
  }

  /** What the quoting routine sees of the arguments. */
  function Texts(args: seq<Argument>): (r: seq<seq<byte>>)
    ensures |r| == |args| && forall i :: 0 <= i < |r| ==> r[i] == Cut(TextOf(args[i]))
  {
    if args == [] then [] else Texts(args[..|args| - 1]) + [Cut(TextOf(args[|args| - 1]))]
  }

  /** What the caller means by them. */
  function Meant(args: seq<Argument>): (r: seq<seq<byte>>)
    ensures |r| == |args| && forall i :: 0 <= i < |r| ==> r[i] == TextOf(args[i])
  {
    if args == [] then [] else Meant(args[..|args| - 1]) + [TextOf(args[|args| - 1])]
  }

  /** No text holds a NUL. */
  predicate NulFree(args: seq<Argument>) {
    forall i :: 0 <= i < |args| ==> 0 !in TextOf(args[i])
  }

  /** The C string of an argument, if there is one, is what stands in front of the first NUL. */
  lemma CStringClean(arg: Argument)
    requires Whole(TextOf(arg))
    ensures Clean(CStringOf(arg)) && (CStringOf(arg).Text? ==> CStringOf(arg).bytes == Cut(TextOf(arg)))
  {
    CutWhole(TextOf(arg));
    CutClean(TextOf(arg));
  }

  /** The two are the same if and only if no text holds a NUL. */
  lemma SeenAsMeant(args: seq<Argument>)
    ensures Texts(args) == Meant(args) <==> NulFree(args)
  {
    forall i | 0 <= i < |args|
      ensures Texts(args)[i] == Meant(args)[i] <==> 0 !in TextOf(args[i])
    {
      CutClean(TextOf(args[i]));
    }
    if Texts(args) == Meant(args) {
      forall i | 0 <= i < |args|
        ensures 0 !in TextOf(args[i])
      {
        assert Texts(args)[i] == Meant(args)[i];
      }
    }
  }

  /** Every argument can be quoted. */
  ghost predicate CanQuoteAll(args: seq<Argument>) {
    args == [] || (CanQuoteAll(args[..|args| - 1]) && CanQuote(CStringOf(args[|args| - 1])))
  }

  lemma {:induction false} CanQuoteEach(args: seq<Argument>)
    ensures CanQuoteAll(args) <==> forall i {:trigger args[i]} :: 0 <= i < |args| ==> CanQuote(CStringOf(args[i]))
  {
    if args != [] {
      var front := args[..|args| - 1];
      CanQuoteEach(front);
      forall i | 0 <= i < |front|
        ensures front[i] == args[i]
      {
      }
    }
  }

  lemma {:induction false} CanQuotePrefix(args: seq<Argument>, i: nat)
    requires i <= |args| && CanQuoteAll(args)
    ensures CanQuoteAll(args[..i])
    decreases |args|
  {
    if i < |args| {
      CanQuotePrefix(args[..|args| - 1], i);
      assert args[..|args| - 1][..i] == args[..i];
    } else {
      assert args[..i] == args;
    }
  }

  /** The command line under construction. */
  class Command {
    var text: seq<byte>

    constructor ()
      ensures text == []
    {
      text := [];
    }

    /** XString_append_utf8 of whole sequences, or of one byte; what gives no character is refused. */
    method Append(s: seq<byte>) returns (ok: bool)
      requires 0 !in s && (Whole(s) || |s| == 1)
      modifies this
      ensures ok <==> s != [] && Whole(s)
      ensures text == if ok then old(text) + s else old(text)
    {
      if |s| == 1 {
        WholeByte(s[0]);
      }
      ok := s != [] && Width(s[0]) != 0 && Width(s[0]) <= |s|;
      if ok {
        text := text + s;
      }
    }

    /** The loops that write the backslashes held back, once or twice each. */
    method AppendTimes(twice: bool, n: nat)
      modifies this
      ensures text == old(text) + Slashes(if twice then 2 * n else n)
    {
      var left: nat, unit := n, if twice then [BACKSLASH, BACKSLASH] else [BACKSLASH];
      WholeAscii(unit);
      while left > 0
        invariant left <= n && text == old(text) + Slashes(if twice then 2 * (n - left) else n - left)
      {
        left := left - 1;
        var ok := Append(unit);
        if twice {
          assert Slashes(2 * (n - left)) == Slashes(2 * (n - left) - 2) + [BACKSLASH] + [BACKSLASH];
        }
      }
    }

    /** xpw_append_quoted: it appends the quoted text, or fails on a missing one and on one it would have to split */
    method AppendQuoted(arg: CString) returns (ok: bool)
      requires Clean(arg)
      modifies this
      ensures ok <==> CanQuote(arg)
      ensures ok ==> text == old(text) + Quoted(arg.bytes)
    {
      assert Unlock(0);
      if arg.Null? {
        return false;
      }
      var s := arg.bytes;
      var quote := s == [];
      var p: nat := 0;
      while p < |s| && !quote
        invariant p <= |s|
        invariant quote ==> NeedsQuotes(s)
        invariant !quote ==> s != [] && forall i :: 0 <= i < p ==> !Special(s[i])
        decreases |s| - p, !quote
      {
        if s[p] == SPACE || s[p] == TAB || s[p] == QUOTE {
          quote := true;
        }
        p := p + 1;
      }
      if quote {
        ok := AppendInQuotes(s);
      } else {
        ok := Append(s);
      }
    }

    /** The loop over the bytes of a text in quotes. */
    method AppendInQuotes(arg: seq<byte>) returns (ok: bool)
      requires 0 !in arg
      modifies this
      ensures ok <==> Ascii(arg)
      ensures ok ==> text == old(text) + ([QUOTE] + Inside(arg, 0) + [QUOTE])
    {
      WholeByte(QUOTE);
      ok := Append([QUOTE]);
      var p: nat, slashCount: nat := 0, 0;
      ghost var goal := old(text) + [QUOTE] + Inside(arg, 0);
      assert arg[0..] == arg;
      while p < |arg| && ok
        invariant p <= |arg| && (ok ==> text + Inside(arg[p..], slashCount) == goal)
        invariant if ok then forall i :: 0 <= i < p ==> arg[i] < 0x80 else p > 0 && arg[p - 1] >= 0x80
        decreases |arg| - p
      {
        assert arg[p..][1..] == arg[p + 1..];
        if arg[p] == BACKSLASH {
          slashCount := slashCount + 1;
        } else {
          ok := AppendByte(arg[p], slashCount, Inside(arg[p + 1..], 0));
          slashCount := 0;
        }
        p := p + 1;
      }
      if ok {
        AppendTimes(true, slashCount);
        ok := Append([QUOTE]);
      }
    }

    /** A byte other than a backslash, after `n` backslashes that have been held back. */
    method AppendByte(c: byte, n: nat, ghost tail: seq<byte>) returns (ok: bool)
      requires c != BACKSLASH && c != 0
      modifies this
      ensures ok <==> c < 0x80
      ensures ok ==>
                text + tail ==
                old(text) + (if c == QUOTE then Slashes(2 * n) + [BACKSLASH, QUOTE] + tail else Slashes(n) + [c] + tail)
    {
      if c == QUOTE {
        AppendTimes(true, n);
        WholeAscii([BACKSLASH, QUOTE]);
        ok := Append([BACKSLASH, QUOTE]);
      } else {
        AppendTimes(false, n);
        WholeByte(c);
        ok := Append([c]);
      }
    }

    /** One blank and one argument. */
    method AddArgument(arg: Argument) returns (ok: bool)
      requires Whole(TextOf(arg))
      modifies this
      ensures ok <==> CanQuote(CStringOf(arg))
      ensures ok ==> text == old(text) + ([SPACE] + Quoted(Cut(TextOf(arg))))
    {
      var c := CStringOf(arg);
      CStringClean(arg);
      AppendBlank();
      ok := AppendQuoted(c);
    }

    method AppendBlank()
      modifies this
      ensures text == old(text) + [SPACE]
    {
      WholeByte(SPACE);
      var ok := Append([SPACE]);
    }

    /**
      xpw_build_command_line: the program, then every argument after a blank. A line is built if and only if the program
      and every argument can be quoted; then splitting its argument part gives back the arguments if and only if none of
      them holds a NUL.
      */
    method Build(program: seq<byte>, args: seq<Argument>) returns (ok: bool)
      requires text == []
      requires Whole(program) && forall i :: 0 <= i < |args| ==> Whole(TextOf(args[i]))
      modifies this
      ensures ok <==> CanQuote(ToUtf8(program)) && CanQuoteAll(args)
      ensures ok ==> text == Quoted(Cut(program)) + ArgumentPart(Texts(args))
      ensures Split(ArgumentPart(Texts(args))) == Texts(args)
      ensures Split(ArgumentPart(Texts(args))) == Meant(args) <==> NulFree(args)
    {
      CutWhole(program);
      CutClean(program);
      ok := AppendQuoted(ToUtf8(program));
      if ok {
        ok := AddArguments(args, Quoted(Cut(program)));
      }
      RoundTrip(Texts(args));
      SeenAsMeant(args);
    }

    /** One pass of the loop over the arguments. */
    method AddNext(args: seq<Argument>, i: nat, ghost front: seq<byte>) returns (ok: bool)
      requires i < |args| && text == front + ArgumentPart(Texts(args[..i])) && Whole(TextOf(args[i]))
      modifies this
      ensures ok <==> CanQuote(CStringOf(args[i]))
      ensures ok ==> text == front + ArgumentPart(Texts(args[..i + 1]))
    {
      ok := AddArgument(args[i]);
      OneMore(front, args, i);
    }

    /** The loop over the arguments. */
    method AddArguments(args: seq<Argument>, ghost front: seq<byte>) returns (ok: bool)
      requires text == front && forall i :: 0 <= i < |args| ==> Whole(TextOf(args[i]))
      modifies this
      ensures ok <==> CanQuoteAll(args)
      ensures ok ==> text == front + ArgumentPart(Texts(args))
    {
      ok := true;
      assert text == front + ArgumentPart(Texts(args[..0]));
      var i: nat := 0;
      while i < |args| && ok
        invariant i <= |args| && (ok ==> text == front + ArgumentPart(Texts(args[..i])))
        invariant ok <==> CanQuoteAll(args[..i])
        decreases |args| - i, ok
      {
        assert args[..i + 1][..i] == args[..i];
        ok := AddNext(args, i, front);
        i := i + 1;
      }
      assert args[..|args|] == args;
      if CanQuoteAll(args) {
        CanQuotePrefix(args, i);
      }
    }
  }

  lemma OneMore(front: seq<byte>, args: seq<Argument>, i: nat)
    requires i < |args|
    ensures front + ArgumentPart(Texts(args[..i])) + ([SPACE] + Quoted(Cut(TextOf(args[i])))) ==
              front + ArgumentPart(Texts(args[..i + 1]))
  {
    var all := args[..i + 1];
    assert all[..i] == args[..i];
    var ts := Texts(all);
    assert ts[..i] == Texts(args[..i]) && ts[i] == Cut(TextOf(args[i]));
  }

  /** Splitting by the runtime's rules gives back the argument list. */
  lemma RoundTrip(args: seq<seq<byte>>)
    ensures Split(ArgumentPart(args)) == args
  {
    SplitArgumentPart(args, []);
    assert ArgumentPart(args) + [] == ArgumentPart(args) && args + Split([]) == args;
  }
}
