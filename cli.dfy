/**
 * `parseArguments`: what the command line asks for — help, a port that is refused, or the
 * docs path, port and development flag the server starts with — and the part of
 * JavaScript's `parseInt` (no radix given) that reads the port.
 */
module Cli {
  import opened Wrappers
  import opened Text

  // ---------------------------------------------------------------------------
  // parseInt(s) with no radix

  /** The characters `parseInt` skips at the start: JavaScript white space and line terminators. */
  predicate IsJsSpace(c: char) {
    || c == '\t' || c == '\n' || c == '\U{000B}' || c == '\U{000C}' || c == '\r' || c == ' '
    || c == '\U{00A0}' || c == '\U{FEFF}' || c == '\U{1680}' || ('\U{2000}' <= c <= '\U{200A}')
    || c == '\U{2028}' || c == '\U{2029}' || c == '\U{202F}' || c == '\U{205F}' || c == '\U{3000}'
  }

  /** The string with its leading white space removed. */
  function TrimStart(s: string): (r: string)
    ensures |r| <= |s| && r == s[|s| - |r|..]
    ensures forall i :: 0 <= i < |s| - |r| ==> IsJsSpace(s[i])
    ensures r == [] || !IsJsSpace(r[0])
    decreases |s|
  {
    if s != [] && IsJsSpace(s[0]) then TrimStart(s[1..]) else s
  }

  /** `c` is a digit in base `radix` (10 or 16), either case for the hexadecimal letters. */
  predicate IsDigit(c: char, radix: nat) {
    ('0' <= c <= '9') || (radix == 16 && (('a' <= c <= 'f') || ('A' <= c <= 'F')))
  }

  function DigitValue(c: char): nat {
    if '0' <= c <= '9' then c as nat - '0' as nat
    else if 'a' <= c <= 'f' then c as nat - 'a' as nat + 10
    else if 'A' <= c <= 'F' then c as nat - 'A' as nat + 10
    else 0
  }

  /** The longest prefix of `s` made of digits in base `radix`. */
  function DigitPrefix(s: string, radix: nat): (r: string)
    ensures r <= s
    ensures forall i :: 0 <= i < |r| ==> IsDigit(r[i], radix)
    ensures |r| == |s| || !IsDigit(s[|r|], radix)
    decreases |s|
  {
    if s == [] || !IsDigit(s[0], radix) then []
    else [s[0]] + DigitPrefix(s[1..], radix)
  }

  /** The number the digits `ds` spell in base `radix`, most significant first. */
  function DigitsValue(ds: string, radix: nat): nat
    decreases |ds|
  {
    if ds == [] then 0
    else DigitsValue(ds[..|ds| - 1], radix) * radix + DigitValue(ds[|ds| - 1])
  }

  /**
   * `parseInt` after the white space and the sign: `0x`/`0X` starts a base-16 numeral,
   * anything else is read in base 10, as far as the digits go; no digits gives NaN (None).
   */
  function ParseUnsigned(u: string): Option<nat> {
    var hex := StartsWith(u, "0x") || StartsWith(u, "0X");
    var radix := if hex then 16 else 10;
    var digits := DigitPrefix(if hex then u[2..] else u, radix);
    if digits == [] then None else Some(DigitsValue(digits, radix))
  }

  /** `parseInt` after the white space: one optional sign, then the numeral. */
  function ParseSigned(t: string): Option<int> {
    if |t| > 0 && (t[0] == '-' || t[0] == '+') then
      var m := ParseUnsigned(t[1..]);
      if m.None? then None else Some(if t[0] == '-' then -(m.value as int) else m.value as int)
    else
      var m := ParseUnsigned(t);
      if m.None? then None else Some(m.value as int)
  }

  /**
   * `parseInt(s)`: skip leading white space, take one sign, then read the numeral.
   * Trailing characters are ignored. The model keeps the exact integer where JavaScript
   * rounds a huge one to a double; no rounded value can cross the port range's bounds.
   */
  function ParseInt(s: string): Option<int> {
    ParseSigned(TrimStart(s))
  }

  /** The decimal numeral of `n`, without leading zeros. */
  function Decimal(n: nat): (r: string)
    ensures |r| >= 1
    ensures forall i :: 0 <= i < |r| ==> IsDigit(r[i], 10)
    decreases n
  {
    if n < 10 then ['0' + n as char]
    else Decimal(n / 10) + ['0' + (n % 10) as char]
  }

  lemma {:induction false} DecimalValue(n: nat)
    ensures DigitsValue(Decimal(n), 10) == n
    decreases n
  {
    if n >= 10 {
      DecimalValue(n / 10);
      var d := Decimal(n);
      assert d[..|d| - 1] == Decimal(n / 10);
    }
  }

  /**
   * A decimal numeral followed by a non-digit reads as its number: the trailing characters
   * are ignored, unless the number is 0 and an `x` follows, which starts a hexadecimal numeral.
   */
  lemma ParseUnsignedDecimal(n: nat, rest: string)
    requires rest != [] ==> !IsDigit(rest[0], 10)
    requires n == 0 && rest != [] ==> rest[0] != 'x' && rest[0] != 'X'
    ensures ParseUnsigned(Decimal(n) + rest) == Some(n)
  {
    var d := Decimal(n);
    var s := d + rest;
    assert !StartsWith(s, "0x") && !StartsWith(s, "0X") by {
      if |s| >= 2 {
        assert "0x"[0] == '0' && "0x"[1] == 'x' && "0X"[1] == 'X';
        assert s[..2][0] == s[0] && s[..2][1] == s[1];
        if |d| >= 2 {
          assert s[1] == d[1] && IsDigit(d[1], 10);
        } else if n > 0 {
          assert s[0] == d[0] != '0';
        } else {
          assert s[1] == rest[0];
        }
      }
    }
    DigitPrefixAfterDigits(d, rest, 10);
    DecimalValue(n);
  }

  /** A string that starts with a digit is not changed by skipping white space. */
  lemma TrimDigitStart(s: string)
    requires s != [] && IsDigit(s[0], 10)
    ensures TrimStart(s) == s
  {
  }

  /** Printing a number in decimal and parsing it back gives the number. */
  lemma ParseIntDecimal(n: nat)
    ensures ParseInt(Decimal(n)) == Some(n)
  {
    ParseUnsignedDecimal(n, []);
    assert Decimal(n) + [] == Decimal(n);
    TrimDigitStart(Decimal(n));
    assert Decimal(n)[0] != '-' && Decimal(n)[0] != '+' by {
      assert IsDigit(Decimal(n)[0], 10);
    }
  }

  /** Characters after the number are ignored: "80abc" gives 80. */
  lemma ParseIntIgnoresTrailing(n: nat, rest: string)
    requires rest != [] ==> !IsDigit(rest[0], 10)
    requires n == 0 && rest != [] ==> rest[0] != 'x' && rest[0] != 'X'
    ensures ParseInt(Decimal(n) + rest) == Some(n)
  {
    ParseUnsignedDecimal(n, rest);
    assert (Decimal(n) + rest)[0] == Decimal(n)[0];
    assert IsDigit(Decimal(n)[0], 10);
    TrimDigitStart(Decimal(n) + rest);
  }

  /** The longest digit prefix of digits followed by a non-digit is those digits. */
  lemma {:induction false} DigitPrefixAfterDigits(d: string, rest: string, radix: nat)
    requires forall i :: 0 <= i < |d| ==> IsDigit(d[i], radix)
    requires rest != [] ==> !IsDigit(rest[0], radix)
    ensures DigitPrefix(d + rest, radix) == d
    decreases |d|
  {
    if d == [] {
      assert d + rest == rest;
    } else {
      DigitPrefixAfterDigits(d[1..], rest, radix);
      assert (d + rest)[1..] == d[1..] + rest;
      assert d == [d[0]] + d[1..];
    }
  }

  /** Leading white space does not change what `parseInt` reads. */
  lemma ParseIntSkipsSpace(c: char, s: string)
    requires IsJsSpace(c)
    ensures ParseInt([c] + s) == ParseInt(s)
  {
    assert ([c] + s)[1..] == s;
    assert TrimStart([c] + s) == TrimStart(s);
  }

  // ---------------------------------------------------------------------------
  // parseArguments

  const DefaultPort := 3000

  /** What the command line asks for. */
  datatype Parsed =
    | Help                         // print the usage text and exit 0
    | BadPort(argument: string)    // report the port argument and exit 1
    | Config(docsPath: Option<string>, port: int, devMode: bool)

  /** `args.filter(arg => !arg.startsWith('--'))` */
  function NonFlags(args: seq<string>): (r: seq<string>)
    ensures forall a :: a in r <==> a in args && !StartsWith(a, "--")
    decreases |args|
  {
    if args == [] then []
    else
      assert args == [args[0]] + args[1..];
      if StartsWith(args[0], "--") then NonFlags(args[1..]) else [args[0]] + NonFlags(args[1..])
  }

  /** A port is accepted when it parses to an integer strictly between 0 and 65536. */
  predicate ValidPort(p: Option<int>) {
    p.Some? && 0 < p.value < 65536
  }

  /** parseArguments on `process.argv.slice(2)`. */
  function ParseArguments(args: seq<string>): Parsed {
    if "--help" in args || "-h" in args then Help
    else
      var positional := NonFlags(args);
      var docsPath := if |positional| >= 1 then Some(positional[0]) else None;
      var devMode := "--dev" in args;
      if |positional| >= 2 then
        var p := ParseInt(positional[1]);
        if ValidPort(p) then Config(docsPath, p.value, devMode) else BadPort(positional[1])
      else Config(docsPath, DefaultPort, devMode)
  }

  /** Help is asked for exactly when `--help` or `-h` appears, whatever else is there. */
  lemma HelpWins(args: seq<string>)
    ensures ParseArguments(args) == Help <==> "--help" in args || "-h" in args
  {
  }

  /** Every argument of `s` starts with `--`. */
  predicate AllFlags(s: seq<string>) {
    forall a :: a in s ==> StartsWith(a, "--")
  }

  /** The filter keeps nothing exactly when every argument starts with `--`. */
  lemma NonFlagsEmpty(args: seq<string>)
    ensures NonFlags(args) == [] <==> AllFlags(args)
  {
    if NonFlags(args) != [] {
      assert NonFlags(args)[0] in NonFlags(args);
    }
  }

  /**
   * The filter keeps the order of `args`: when `args[i]` is the first argument not
   * starting with `--`, it comes first, followed by what the filter keeps of the rest.
   */
  lemma {:induction false} NonFlagsFrom(args: seq<string>, i: nat)
    requires i < |args| && AllFlags(args[..i]) && !StartsWith(args[i], "--")
    ensures NonFlags(args) == [args[i]] + NonFlags(args[i + 1..])
    decreases i
  {
    if i > 0 {
      assert args[0] in args[..i];
      assert args[1..][..i - 1] == args[1..i];
      assert forall a :: a in args[1..i] ==> a in args[..i];
      NonFlagsFrom(args[1..], i - 1);
      assert args[1..][i..] == args[i + 1..];
    }
  }

  /** With every argument a `--` flag, there is no docs path and the port is 3000. */
  lemma ParseArgumentsNoPath(args: seq<string>)
    requires "--help" !in args && "-h" !in args
    requires AllFlags(args)
    ensures ParseArguments(args) == Config(None, DefaultPort, "--dev" in args)
  {
    NonFlagsEmpty(args);
  }

  /** With `args[i]` the only argument not starting with `--`, it is the docs path and the port is 3000. */
  lemma ParseArgumentsPathOnly(args: seq<string>, i: nat)
    requires "--help" !in args && "-h" !in args
    requires i < |args| && AllFlags(args[..i]) && !StartsWith(args[i], "--") && AllFlags(args[i + 1..])
    ensures ParseArguments(args) == Config(Some(args[i]), DefaultPort, "--dev" in args)
  {
    NonFlagsFrom(args, i);
    NonFlagsEmpty(args[i + 1..]);
  }

  /**
   * With `args[i]` and `args[j]` the first two arguments not starting with `--`, `args[i]` is
   * the docs path and `args[j]` is the port when its parse lies strictly between 0 and
   * 65536; otherwise `args[j]` is refused.
   */
  lemma ParseArgumentsPathAndPort(args: seq<string>, i: nat, j: nat)
    requires "--help" !in args && "-h" !in args
    requires i < j < |args| && AllFlags(args[..i]) && !StartsWith(args[i], "--")
    requires AllFlags(args[i + 1..j]) && !StartsWith(args[j], "--")
    ensures ValidPort(ParseInt(args[j])) ==>
              ParseArguments(args) == Config(Some(args[i]), ParseInt(args[j]).value, "--dev" in args)
    ensures !ValidPort(ParseInt(args[j])) ==> ParseArguments(args) == BadPort(args[j])
  {
    NonFlagsFrom(args, i);
    var rest := args[i + 1..];
    assert rest[..j - i - 1] == args[i + 1..j] && rest[j - i - 1] == args[j];
    NonFlagsFrom(rest, j - i - 1);
  }

  /**
   * Without a help flag the port falls back to 3000 and `--dev` is the development flag.
   * The docs path is the first argument not starting with `--`, or none when every
   * argument starts with `--`. A second such argument is the port when its parse lies
   * strictly between 0 and 65536, and is refused otherwise.
   */
  lemma ParseArgumentsSpec(args: seq<string>)
    requires "--help" !in args && "-h" !in args
    ensures AllFlags(args) ==> ParseArguments(args) == Config(None, DefaultPort, "--dev" in args)
    ensures forall i: nat :: i < |args| && AllFlags(args[..i]) && !StartsWith(args[i], "--")
                             && AllFlags(args[i + 1..]) ==>
              ParseArguments(args) == Config(Some(args[i]), DefaultPort, "--dev" in args)
    ensures forall i: nat, j: nat :: i < j < |args| && AllFlags(args[..i]) && !StartsWith(args[i], "--")
                                     && AllFlags(args[i + 1..j]) && !StartsWith(args[j], "--") ==>
              ParseArguments(args)
              == if ValidPort(ParseInt(args[j])) then Config(Some(args[i]), ParseInt(args[j]).value, "--dev" in args)
                 else BadPort(args[j])
  {
    if AllFlags(args) {
      ParseArgumentsNoPath(args);
    }
    forall i: nat | i < |args| && AllFlags(args[..i]) && !StartsWith(args[i], "--") && AllFlags(args[i + 1..])
      ensures ParseArguments(args) == Config(Some(args[i]), DefaultPort, "--dev" in args)
    {
      ParseArgumentsPathOnly(args, i);
    }
    forall i: nat, j: nat | i < j < |args| && AllFlags(args[..i]) && !StartsWith(args[i], "--")
                            && AllFlags(args[i + 1..j]) && !StartsWith(args[j], "--")
      ensures ParseArguments(args)
              == if ValidPort(ParseInt(args[j])) then Config(Some(args[i]), ParseInt(args[j]).value, "--dev" in args)
                 else BadPort(args[j])
    {
      ParseArgumentsPathAndPort(args, i, j);
    }
  }

  /** Every configuration the parser accepts carries a port in range. */
  lemma ConfigPortInRange(args: seq<string>)
    requires ParseArguments(args).Config?
    ensures 0 < ParseArguments(args).port < 65536
  {
  }

  /** An argument starting with `--` other than `--help` and `--dev` changes nothing. */
  lemma {:induction false} OtherFlagIgnored(before: seq<string>, flag: string, after: seq<string>)
    requires StartsWith(flag, "--") && flag != "--help" && flag != "--dev"
    ensures ParseArguments(before + [flag] + after) == ParseArguments(before + after)
  {
    NonFlagsSkipsFlag(before, flag, after);
    var with, without := before + [flag] + after, before + after;
    assert forall a :: a in with <==> a in without || a == flag;
    assert flag[1] == '-' && "-h"[1] == 'h';
  }

  lemma {:induction false} NonFlagsSkipsFlag(before: seq<string>, flag: string, after: seq<string>)
    requires StartsWith(flag, "--")
    ensures NonFlags(before + [flag] + after) == NonFlags(before + after)
    decreases |before|
  {
    if before == [] {
      assert before + [flag] + after == [flag] + after;
      assert ([flag] + after)[1..] == after;
      assert before + after == after;
    } else {
      NonFlagsSkipsFlag(before[1..], flag, after);
      assert (before + [flag] + after)[1..] == before[1..] + [flag] + after;
      assert (before + after)[1..] == before[1..] + after;
    }
  }

  /** A docs path and a port printed in decimal are read back as given. */
  lemma PathAndPortRoundTrip(docsPath: string, port: nat)
    requires !StartsWith(docsPath, "--") && docsPath != "-h"
    requires 0 < port < 65536
    ensures ParseArguments([docsPath, Decimal(port)]) == Config(Some(docsPath), port, false)
  {
    var p := Decimal(port);
    var args := [docsPath, p];
    assert IsDigit(p[0], 10);
    assert "--help"[0] == '-' && "--dev"[0] == '-' && "-h"[0] == '-';
    assert StartsWith("--help", "--") && StartsWith("--dev", "--");
    assert !StartsWith(p, "--");
    assert forall a :: a in args <==> a == docsPath || a == p;
    assert "--help" !in args && "-h" !in args && "--dev" !in args;
    assert args[..0] == [] && args[1..1] == [];
    ParseIntDecimal(port);
    ParseArgumentsPathAndPort(args, 0, 1);
  }

  /** The usage examples of the help text without a port: the default settings, and a path alone. */
  lemma UsageWithoutPort()
    ensures ParseArguments([]) == Config(None, 3000, false)
    ensures ParseArguments(["./my-docs"]) == Config(Some("./my-docs"), 3000, false)
  {
    var args := ["./my-docs"];
    assert "./my-docs"[0] == '.' && "--help"[0] == '-' && "-h"[0] == '-' && "--dev"[0] == '-';
    assert !StartsWith("./my-docs", "--");
    assert NonFlags(args[1..]) == [];
    assert NonFlags(args) == args;
  }

  /** The usage example that sets port 8080. */
  lemma UsageWithPort()
    ensures ParseArguments(["./docs", "8080"]) == Config(Some("./docs"), 8080, false)
  {
    assert Decimal(8) == "8";
    assert Decimal(80) == "80";
    assert Decimal(808) == "808";
    assert Decimal(8080) == "8080";
    assert "./docs"[0] == '.' && "--"[0] == '-';
    PathAndPortRoundTrip("./docs", 8080);
  }
}
