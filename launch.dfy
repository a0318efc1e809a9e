/** What happens between a click and a launch: the command line taken from the
    application (leading white space removed, rejected when empty), the
    field-code stripping applied to it before it is run, and the file name of
    the applications menu. */
module Launch {
  import opened Text
  import opened Menu

  // ---------------------------------------------------------------------
  // Field codes

  /** The command line with its desktop-entry field codes removed, scanning
      from the front: "%%" becomes "%", a '%' followed by any other character
      drops both, and everything else, including a '%' at the very end, is
      copied. The scan is over characters; a character stands for one byte of
      the locale-encoded command. */
  function StripFieldCodes(s: string): (r: string)
    ensures s != [] && s[0] != '%' ==> r != [] && r[0] == s[0]
    ensures |s| >= 2 && s[..2] == "%%" ==> r != [] && r[0] == '%'
    decreases |s|
  {
    if s == [] then []
    else if s[0] == '%' && |s| >= 2 then
      (if s[1] == '%' then "%" else "") + StripFieldCodes(s[2..])
    else [s[0]] + StripFieldCodes(s[1..])
  }

  /** The scan the launcher runs over the command line, building the result
      one character at a time. */
  method StripFieldCodesLoop(command: string) returns (out: string)
    ensures out == StripFieldCodes(command)
  {
    out := "";
    var p := 0;
    while p < |command|
      invariant 0 <= p <= |command|
      invariant out + StripFieldCodes(command[p..]) == StripFieldCodes(command)
      decreases |command| - p
    {
      if command[p] == '%' && p + 1 < |command| {
        StripStepCode(command, p);
        if command[p + 1] == '%' {
          AppendAssoc(out, "%", StripFieldCodes(command[p + 2..]));
          out := out + "%";
        } else {
          assert "" + StripFieldCodes(command[p + 2..]) == StripFieldCodes(command[p + 2..]);
        }
        p := p + 2;
      } else {
        StripStepPlain(command, p);
        AppendAssoc(out, [command[p]], StripFieldCodes(command[p + 1..]));
        out := out + [command[p]];
        p := p + 1;
      }
    }
    assert command[|command|..] == [];
  }

  /** Concatenation regroups. */
  lemma AppendAssoc(a: string, b: string, c: string)
    ensures (a + b) + c == a + (b + c)
  {
  }

  /** The scan at a '%' that has a character after it. */
  lemma StripStepCode(command: string, p: nat)
    requires p + 1 < |command| && command[p] == '%'
    ensures StripFieldCodes(command[p..])
            == (if command[p + 1] == '%' then "%" else "") + StripFieldCodes(command[p + 2..])
  {
    var rest := command[p..];
    assert rest[0] == '%' && rest[1] == command[p + 1];
    assert rest[2..] == command[p + 2..];
  }

  /** The scan at any other character. */
  lemma StripStepPlain(command: string, p: nat)
    requires p < |command| && !(command[p] == '%' && p + 1 < |command|)
    ensures StripFieldCodes(command[p..]) == [command[p]] + StripFieldCodes(command[p + 1..])
  {
    var rest := command[p..];
    assert rest[0] == command[p];
    assert rest[1..] == command[p + 1..];
  }

  /** Stripping never makes the command longer. */
  lemma {:induction false} StripNeverLonger(s: string)
    ensures |StripFieldCodes(s)| <= |s|
    decreases |s|
  {
    if s != [] {
      if s[0] == '%' && |s| >= 2 {
        StripNeverLonger(s[2..]);
      } else {
        StripNeverLonger(s[1..]);
      }
    }
  }

  /** A command line without '%' passes unchanged. */
  lemma {:induction false} NoPercentUnchanged(s: string)
    requires forall i :: 0 <= i < |s| ==> s[i] != '%'
    ensures StripFieldCodes(s) == s
    decreases |s|
  {
    if s != [] {
      NoPercentUnchanged(s[1..]);
      assert [s[0]] + s[1..] == s;
    }
  }

  /** One step of the scan: how each kind of prefix is translated. */
  lemma StripRules(c: char, s: string)
    ensures StripFieldCodes("%%" + s) == "%" + StripFieldCodes(s)
    ensures c != '%' ==> StripFieldCodes(['%', c] + s) == StripFieldCodes(s)
    ensures c != '%' ==> StripFieldCodes([c] + s) == [c] + StripFieldCodes(s)
    ensures StripFieldCodes("%") == "%"
  {
    assert ("%%" + s)[2..] == s;
    assert (['%', c] + s)[2..] == s;
    assert ([c] + s)[1..] == s;
  }

  /** Doubling every '%' escapes a literal command line. */
  function EscapePercent(s: string): string
  {
    if s == [] then []
    else (if s[0] == '%' then "%%" else [s[0]]) + EscapePercent(s[1..])
  }

  /** Stripping undoes escaping: a command line whose '%' characters are all
      doubled comes out as the literal line. */
  lemma {:induction false} StripUndoesEscape(s: string)
    ensures StripFieldCodes(EscapePercent(s)) == s
  {
    if s != [] {
      var e := EscapePercent(s);
      StripUndoesEscape(s[1..]);
      if s[0] == '%' {
        assert e == "%%" + EscapePercent(s[1..]);
        assert e[2..] == EscapePercent(s[1..]);
      } else {
        assert e == [s[0]] + EscapePercent(s[1..]);
        assert e[1..] == EscapePercent(s[1..]);
      }
      assert [s[0]] + s[1..] == s;
    }
  }

  /** Characters other than '%' in front of the rest are copied unchanged. */
  lemma {:induction false} StripPlainPrefix(a: string, b: string)
    requires forall i :: 0 <= i < |a| ==> a[i] != '%'
    ensures StripFieldCodes(a + b) == a + StripFieldCodes(b)
    decreases |a|
  {
    if a != [] {
      assert (a + b)[1..] == a[1..] + b;
      StripPlainPrefix(a[1..], b);
      assert [a[0]] + (a[1..] + StripFieldCodes(b)) == a + StripFieldCodes(b);
    } else {
      assert a + b == b;
    }
  }

  /** The usual field codes of an Exec line disappear. */
  lemma StripUrlCode()
    ensures StripFieldCodes("firefox %u") == "firefox "
  {
    var code := ['%', 'u'];
    StripRules('u', "");
    assert code + "" == code;
    assert "firefox %u" == "firefox " + code;
    StripPlainPrefix("firefox ", code);
  }

  lemma StripEscapedPercent()
    ensures StripFieldCodes("100%%") == "100%"
  {
    assert "%%"[2..] == [];
    assert StripFieldCodes("%%") == "%";
    StripPlainPrefix("100", "%%");
    assert "100" + "%%" == "100%%";
    assert "100" + "%" == "100%";
  }

  lemma StripKeepsTrailingPercent()
    ensures StripFieldCodes("a%") == "a%"
  {
    assert "%"[1..] == [];
    assert StripFieldCodes("%") == "%";
    StripPlainPrefix("a", "%");
    assert "a" + "%" == "a%";
  }

  // ---------------------------------------------------------------------
  // The command line of a clicked entry

  /** ASCII white space as GLib classifies it: space, tab, newline, vertical
      tab, form feed and carriage return. */
  predicate IsAsciiSpace(c: char)
  {
    c == ' ' || ('\t' <= c <= '\r')
  }

  /** The number of ASCII white-space characters the string starts with. */
  function LeadingSpaces(s: string): (n: nat)
    ensures n <= |s|
    ensures n == |s| || !IsAsciiSpace(s[n])
    ensures forall i :: 0 <= i < n ==> IsAsciiSpace(s[i])
    decreases |s|
  {
    if s != [] && IsAsciiSpace(s[0]) then
      var n := LeadingSpaces(s[1..]);
      assert forall i :: 1 <= i <= n ==> s[i] == s[1..][i - 1];
      n + 1
    else 0
  }

  /** The string with its leading ASCII white space removed. */
  function Chug(s: string): (r: string)
    ensures |r| <= |s| && r == s[|s| - |r|..]
    ensures r == [] || !IsAsciiSpace(r[0])
    ensures forall i :: 0 <= i < |s| - |r| ==> IsAsciiSpace(s[i])
  {
    s[LeadingSpaces(s)..]
  }

  /** The command a click hands to the launcher: the application's command
      line without leading white space, or nothing when the entry has no
      application info, the application no command line, or the line is blank. */
  function CommandOf(e: Entry): (cmd: Option<string>)
    ensures cmd.Some? ==> e.info.Some? && e.info.value.commandline.Some?
    ensures cmd.Some? ==> cmd.value != [] && !IsAsciiSpace(cmd.value[0])
    ensures cmd.Some? ==> cmd.value == Chug(e.info.value.commandline.value)
    ensures e.info.Some? && e.info.value.commandline.Some?
            && (exists i :: 0 <= i < |e.info.value.commandline.value| && !IsAsciiSpace(e.info.value.commandline.value[i]))
            ==> cmd.Some?
  {
    match e.info
    case None => None
    case Some(info) =>
      match info.commandline
      case None => None
      case Some(line) =>
        var c := Chug(line);
        if c == [] then None else Some(c)
  }

  // ---------------------------------------------------------------------
  // The applications menu

  /** The menu file named by the menu prefix: "gnome-applications.menu" when
      no prefix is set or it is empty, the prefix followed by
      "applications.menu" otherwise. */
  function ApplicationsMenu(prefix: Option<string>): (file: string)
    ensures prefix.None? || prefix.value == [] ==> file == "gnome-applications.menu"
    ensures prefix.Some? && prefix.value != [] ==> file == prefix.value + "applications.menu"
    ensures |file| >= 17 && file[|file| - 17..] == "applications.menu"
  {
    if prefix.None? || prefix.value == [] then "gnome-applications.menu"
    else prefix.value + "applications.menu"
  }
}
