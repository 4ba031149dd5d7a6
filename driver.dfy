/**
 * The startup configuration resolver of Tiny Tomcat's `Driver`: it turns the
 * raw command-line arguments into either "show help" or the web root and
 * port that the embedded server is started with.
 */
module Driver {
  import opened JavaText
  import opened JavaInteger

  /** `String[] args`: possibly null; its elements are never null. */
  datatype Args = NullArgs | Args(items: seq<string>)

  /** The outcome of the head of `main`: print usage and exit, or serve. */
  datatype Decision = Help | Serve(webRoot: string, port: int)

  const ROOT: string := "."
  const PORT: int := 8080
  const WELCOME_FILES: seq<string> := ["index.html", "index.htm", "index"]

  /** The first argument, lower-cased after trimming, names one of the help flags. */
  predicate IsHelpFlag(s: string) {
    s == "-h" || s == "--help"
  }

  /**
   * `getPort`: the second argument read by `Integer.parseInt`, kept only when
   * strictly between 0 and 65535; otherwise (no such argument, a
   * `NumberFormatException`, or out of range) the default port.
   */
  function GetPort(args: Args): (r: int)
    ensures 0 < r < 65535
    ensures r != PORT ==> args.Args? && |args.items| >= 2 && ParseInt(args.items[1]) == Some(r)
    ensures (args.Args? && |args.items| >= 2 && ParseInt(args.items[1]).Some? &&
             0 < ParseInt(args.items[1]).value < 65535) ==> r == ParseInt(args.items[1]).value
  {
    if args.Args? && |args.items| >= 2 then
      match ParseInt(args.items[1])
      case Some(port) => if 0 < port < 65535 then port else PORT
      case None => PORT
    else
      PORT
  }

  /** `getWebRoot`: the trimmed first argument, or "." when it is missing or blank. */
  function GetWebRoot(args: Args): (r: string)
    ensures r != [] && Trim(r) == r
    ensures r == ROOT || (args.Args? && |args.items| > 0 && r == Trim(args.items[0]))
  {
    if args.Args? && |args.items| > 0 && |Trim(args.items[0])| > 0 then
      TrimIdempotent(args.items[0]);
      Trim(args.items[0])
    else
      ROOT
  }

  /**
   * `isHelp`: the trimmed first argument, lower-cased, equals "-h" or
   * "--help" ignoring case.
   */
  function IsHelp(args: Args): (r: bool)
    ensures r <==> args.Args? && |args.items| > 0 && IsHelpFlag(ToLower(Trim(args.items[0])))
  {
    if args.Args? && |args.items| > 0 && |Trim(args.items[0])| > 0 then
      var first := ToLower(Trim(args.items[0]));
      ToLowerIdempotent(Trim(args.items[0]));
      EqualsIgnoreCaseIff(first, "-h");
      EqualsIgnoreCaseIff(first, "--help");
      assert ToLower("-h") == "-h";
      assert ToLower("--help") == "--help";
      EqualsIgnoreCase(first, "-h") || EqualsIgnoreCase(first, "--help")
    else
      false
  }

  /**
   * The head of `main`: help when `isHelp` holds (usage is printed and the
   * process exits), otherwise the web root and port the server is built with.
   */
  function Decide(args: Args): (d: Decision)
    ensures d.Help? <==> IsHelp(args)
    ensures d.Serve? ==> d.webRoot == GetWebRoot(args) && d.port == GetPort(args)
    ensures d.Serve? ==> 0 < d.port < 65535 && d.webRoot != [] && Trim(d.webRoot) == d.webRoot
    ensures d.Serve? ==> !IsHelpFlag(ToLower(d.webRoot))
  {
    if IsHelp(args) then Help
    else
      ServedRootIsNoFlag(args);
      Serve(GetWebRoot(args), GetPort(args))
  }

  /** Whatever root is served, it is never one of the help flags. */
  lemma ServedRootIsNoFlag(args: Args)
    requires !IsHelp(args)
    ensures !IsHelpFlag(ToLower(GetWebRoot(args)))
  {
    var root := GetWebRoot(args);
    if root == ROOT {
      assert ToLower(ROOT)[0] == '.';
    }
  }

  /**
   * `forEachOrdered(ctx::addWelcomeFile)`: each file is appended to the
   * context's welcome list in turn.
   */
  function AddWelcomeFiles(registered: seq<string>, files: seq<string>): (r: seq<string>)
    ensures r == registered + files
    decreases files
  {
    if files == [] then registered
    else
      assert registered + files == (registered + [files[0]]) + files[1..];
      AddWelcomeFiles(registered + [files[0]], files[1..])
  }

  /** The welcome files reach the context in their declared order. */
  lemma WelcomeFilesOrder()
    ensures AddWelcomeFiles([], WELCOME_FILES) == ["index.html", "index.htm", "index"]
  {
  }

  /**
   * The second argument written as the decimal text of any integer `p` gives
   * back `p` exactly when `0 < p < 65535`, and the default otherwise (so "0",
   * "65535" and numbers that overflow an `int` are refused).
   */
  lemma GetPortOfDecimal(args: Args, p: int)
    requires args.Args? && |args.items| >= 2 && args.items[1] == Show(p)
    ensures GetPort(args) == if 0 < p < 65535 then p else PORT
  {
    if InIntRange(p) {
      ParseShow(p);
    } else if p < 0 {
      DigitsValueOfNatDigits(-p);
      ParseSignedDigits("-", NatDigits(-p));
    } else {
      DigitsValueOfNatDigits(p);
      ParseSignedDigits("", NatDigits(p));
      assert "" + NatDigits(p) == NatDigits(p);
    }
  }

  /** A port accepted from canonical text is the number that text spells. */
  lemma GetPortAccepted(args: Args)
    requires GetPort(args) != PORT
    ensures args.Args? && |args.items| >= 2
    ensures IsCanonicalDecimal(args.items[1]) ==> args.items[1] == Show(GetPort(args))
  {
    if IsCanonicalDecimal(args.items[1]) {
      ShowOfParse(args.items[1]);
    }
  }

  /** Fewer than two arguments, or none at all, give the default port. */
  lemma GetPortMissing(args: Args)
    requires args.NullArgs? || |args.items| < 2
    ensures GetPort(args) == PORT
  {
  }

  /** A second argument that `parseInt` refuses gives the default port. */
  lemma GetPortMalformed(args: Args)
    requires args.Args? && |args.items| >= 2 && ParseInt(args.items[1]).None?
    ensures GetPort(args) == PORT
  {
  }

  /** The second argument is not trimmed: padding makes it fall back to the default. */
  lemma GetPortRejectsPadding(args: Args)
    requires args.Args? && |args.items| >= 2 && args.items[1] != []
    requires IsTrimmable(args.items[1][0]) || IsTrimmable(args.items[1][|args.items[1]| - 1])
    ensures GetPort(args) == PORT
  {
    ParseRejectsPadding(args.items[1]);
  }

  /** A parsed value outside (0, 65535) gives the default port. */
  lemma GetPortOutOfRange(args: Args, v: int)
    requires args.Args? && |args.items| >= 2 && ParseInt(args.items[1]) == Some(v)
    requires v <= 0 || v >= 65535
    ensures GetPort(args) == PORT
  {
  }

  /** `getPort` reads only the number of arguments and the second one. */
  lemma GetPortIgnoresOtherArgs(a: Args, b: Args)
    requires a.Args? && b.Args? && |a.items| == |b.items|
    requires |a.items| >= 2 ==> a.items[1] == b.items[1]
    ensures GetPort(a) == GetPort(b)
  {
  }

  /** A missing, empty or blank first argument gives the default root ".". */
  lemma GetWebRootDefault(args: Args)
    requires args.NullArgs? || |args.items| == 0 || AllTrimmable(args.items[0])
    ensures GetWebRoot(args) == ROOT
  {
  }

  /** A first argument padded with blanks gives back exactly the text inside. */
  lemma GetWebRootPadded(args: Args, pre: string, t: string, post: string)
    requires AllTrimmable(pre) && AllTrimmable(post)
    requires t != [] && !IsTrimmable(t[0]) && !IsTrimmable(t[|t| - 1])
    requires args.Args? && |args.items| > 0 && args.items[0] == pre + t + post
    ensures GetWebRoot(args) == t
  {
    TrimOfPadded(pre, t, post);
  }

  // The example lemmas below take their string literals as parameters fixed by
  // a requires clause: stated on the literals themselves, the solver unfolds
  // Trim, ToLower and IsHelp on the literal text without bound.

  /** The short flag asks for help. */
  lemma ShortFlagIsHelp(arg: string)
    requires arg == "-h"
    ensures IsHelp(Args([arg]))
  {
    assert [arg] + [] == [arg];
    LowerOfFlag(arg, [], arg, [], arg, []);
  }

  /** The long flag asks for help in upper case too, alone or with a port after it. */
  lemma UpperLongFlagIsHelp(arg: string, port: string)
    requires arg == "--HELP" && port == "9090"
    ensures IsHelp(Args([arg]))
    ensures IsHelp(Args([arg, port]))
  {
    assert [] + arg + [] == arg;
    assert [arg] + [] == [arg];
    LowerOfFlag(arg, [], arg, [], "--help", []);
    assert [arg] + [port] == [arg, port];
    LowerOfFlag(arg, [], arg, [], "--help", [port]);
  }

  /** Blanks around the flag are trimmed before the comparison. */
  lemma PaddedFlagIsHelp(arg: string)
    requires arg == " -H\t"
    ensures IsHelp(Args([arg]))
  {
    assert [arg] + [] == [arg];
    LowerOfFlag(arg, " ", "-H", "\t", "-h", []);
  }

  /**
   * A first argument made of a help flag in any ASCII case, padded with
   * blanks, asks for help whatever arguments follow it.
   */
  lemma LowerOfFlag(arg: string, pre: string, t: string, post: string, flag: string, rest: seq<string>)
    requires arg == pre + t + post
    requires AllTrimmable(pre) && AllTrimmable(post)
    requires t != [] && !IsTrimmable(t[0]) && !IsTrimmable(t[|t| - 1])
    requires |t| == |flag| && forall i :: 0 <= i < |t| ==> ToLowerChar(t[i]) == flag[i]
    requires IsHelpFlag(flag)
    ensures IsHelp(Args([arg] + rest))
  {
    TrimOfPadded(pre, t, post);
    assert ToLower(t) == flag;
    assert Args([arg] + rest).items[0] == arg;
  }

  /** A word that is not a flag is not a help request. */
  lemma OtherArgsAreNoHelp(word: string)
    requires word == "foo"
    ensures !IsHelp(Args([word]))
  {
    TrimOfPadded([], word, []);
    assert [] + word + [] == word;
    assert |ToLower(word)| == 3;
  }

  /** A plain port number is taken as it is. */
  lemma PlainPortAccepted(args: Args)
    requires args == Args(["www", "9000"])
    ensures GetPort(args) == 9000
  {
    assert NatDigits(9) == "9";
    assert NatDigits(90) == "90";
    assert NatDigits(900) == "900";
    assert Show(9000) == "9000";
    GetPortOfDecimal(args, 9000);
  }

  /** A port written with a '+' sign or a leading zero is read all the same. */
  lemma SignedOrZeroPaddedPortAccepted(plus: Args, zero: Args, ds: string)
    requires ds == "9000"
    requires plus == Args(["www", "+" + ds]) && zero == Args(["www", "" + ("0" + ds)])
    ensures GetPort(plus) == 9000 && GetPort(zero) == 9000
  {
    assert NatDigits(9) == "9";
    assert NatDigits(90) == "90";
    assert NatDigits(900) == "900";
    assert NatDigits(9000) == ds;
    DigitsValueOfNatDigits(9000);
    ParseSignedDigits("+", ds);
    ParseSignedDigits("", ds);
    ParseLeadingZero("", ds);
    assert "" + ds == ds;
  }

  /** The bound 65535 itself is refused. */
  lemma UpperBoundRefused(args: Args)
    requires args == Args(["www", "65535"])
    ensures GetPort(args) == PORT
  {
    assert NatDigits(6) == "6";
    assert NatDigits(65) == "65";
    assert NatDigits(655) == "655";
    assert NatDigits(6553) == "6553";
    assert Show(65535) == "65535";
    GetPortOfDecimal(args, 65535);
  }

  /** A padded number and a word are both refused. */
  lemma PaddedOrWordRefused(padded: Args, word: Args)
    requires padded == Args(["www", " 9000"]) && word == Args(["www", "abc"])
    ensures GetPort(padded) == PORT && GetPort(word) == PORT
  {
    GetPortRejectsPadding(padded);
    assert !IsDigit(word.items[1][0]);
  }

  /** With no arguments there is no help request, and the server starts on "." at port 8080. */
  lemma DecideDefaults(args: Args)
    requires args == NullArgs || args == Args([])
    ensures !IsHelp(args)
    ensures Decide(args) == Serve(".", 8080)
  {
    assert args.NullArgs? || |args.items| == 0;
    assert !IsHelp(args);
    GetPortMissing(args);
    GetWebRootDefault(args);
  }
}
