/** The stylesheet: a fixed preamble for the base `.icon` class, then one
    mask-image rule per manifest record, joined by newlines. */
module Stylesheet {
  import opened Text
  import opened Scanner

  /** The fixed preamble: the two custom properties and the `.icon` class
      with its standard and `-webkit-` masking properties. */
  const BaseCss: string :=
    "/* Global icon styles */\n:root {\n  --icon-size: 2rem;       /* default icon size */\n  --icon-color: #333;      /* default icon color */\n}\n\n.icon {\n  display: inline-block;\n  width: var(--icon-size);\n  height: var(--icon-size);\n  background-color: var(--icon-color);\n  mask-repeat: no-repeat;\n  mask-position: center;\n  mask-size: contain;\n  -webkit-mask-repeat: no-repeat;\n  -webkit-mask-position: center;\n  -webkit-mask-size: contain;\n}\n"

  /** The path written inside a rule's `url(...)`: rebuilt from the record's
      `full_name` and a lower-case `.svg`, not taken from `filePath`. */
  function RuleUrl(folder: string, icon: Icon): string
  {
    folder + "/" + icon.fullName + ".svg"
  }

  /** The rule for one record: a class selector named after `className`
      whose body sets `mask-image` and `-webkit-mask-image` to the record's
      URL. */
  function CssRule(folder: string, icon: Icon): string
  {
    "." + icon.className + " {\n"
    + "  mask-image: url(\"" + RuleUrl(folder, icon) + "\");\n"
    + "  -webkit-mask-image: url(\"" + RuleUrl(folder, icon) + "\");\n"
    + "}"
  }

  /** One rule per record, in record order. */
  function RulesOf(folder: string, icons: seq<Icon>): seq<string>
  {
    seq(|icons|, k requires 0 <= k < |icons| => CssRule(folder, icons[k]))
  }

  /** A preamble, a blank line and the rules joined by newlines:
      `base_css + "\n\n" + "\n".join(icon_classes)`. */
  function Assemble(preamble: string, rules: seq<string>): string
  {
    preamble + "\n\n" + Join("\n", rules)
  }

  /** The whole stylesheet text. */
  function StylesheetText(folder: string, icons: seq<Icon>): string
  {
    Assemble(BaseCss, RulesOf(folder, icons))
  }

  /** The rule loop and the final join. */
  method BuildStylesheet(folder: string, icons: seq<Icon>) returns (css: string)
    ensures css == StylesheetText(folder, icons)
  {
    var iconClasses: seq<string> := [];
    for i := 0 to |icons|
      invariant |iconClasses| == i
      invariant forall k :: 0 <= k < i ==> iconClasses[k] == CssRule(folder, icons[k])
    {
      var icon := icons[i];
      var svgFilename := icon.fullName + ".svg";
      assert folder + "/" + svgFilename == RuleUrl(folder, icon);
      var cssRule := "." + icon.className + " {\n"
        + "  mask-image: url(\"" + folder + "/" + svgFilename + "\");\n"
        + "  -webkit-mask-image: url(\"" + folder + "/" + svgFilename + "\");\n"
        + "}";
      assert cssRule == CssRule(folder, icon);
      iconClasses := iconClasses + [cssRule];
    }
    assert iconClasses == RulesOf(folder, icons);
    css := BaseCss + "\n\n" + Join("\n", iconClasses);
    assert css == Assemble(BaseCss, iconClasses);
  }

  /** A slice of `prefix + s` beyond the prefix is a slice of `s`. */
  lemma {:induction false} SliceAfterPrefix(prefix: string, s: string, a: nat, b: nat)
    requires a <= b <= |s|
    ensures (prefix + s)[|prefix| + a..|prefix| + b] == s[a..b]
  {
  }

  /** Two strings after the same prefix are equal exactly when they are. */
  lemma {:induction false} PrefixCancel(prefix: string, s: string, t: string)
    ensures prefix + s == prefix + t <==> s == t
  {
    if prefix + s == prefix + t {
      assert s == (prefix + s)[|prefix|..];
    }
  }

  /** An assembled stylesheet starts with the preamble and a blank line; with
      no rules that is all of it, and otherwise its length is that of the
      preamble, the blank line, the rules and one newline between each two. */
  lemma {:induction false} AssembleFrame(preamble: string, rules: seq<string>)
    ensures var css := Assemble(preamble, rules);
      && |preamble| + 2 <= |css| && css[..|preamble| + 2] == preamble + "\n\n"
      && (rules == [] ==> css == preamble + "\n\n")
      && (rules != [] ==> |css| + 1 == |preamble| + 2 + PartOffset("\n", rules, |rules|))
  {
    if rules != [] {
      JoinLength("\n", rules);
    }
  }

  /** Rule `k` stands in the assembled stylesheet at the offset of part `k`
      of the joined rules, after the preamble and the blank line. */
  lemma {:induction false} AssembleRuleAt(preamble: string, rules: seq<string>, k: nat)
    requires k < |rules|
    ensures var css, start := Assemble(preamble, rules), |preamble| + 2 + PartOffset("\n", rules, k);
      && start + |rules[k]| <= |css|
      && css[start..start + |rules[k]|] == rules[k]
  {
    var o, part := PartOffset("\n", rules, k), rules[k];
    assert o + |part| <= |Join("\n", rules)| && Join("\n", rules)[o..o + |part|] == part by {
      JoinPartAt("\n", rules, k);
    }
    PartAfterPreamble(preamble, Join("\n", rules), o, part);
  }

  /** A part found in `s` at offset `o` is found after a preamble and a blank
      line at offset `|preamble| + 2 + o`. */
  lemma {:induction false} PartAfterPreamble(preamble: string, s: string, o: nat, part: string)
    requires o + |part| <= |s| && s[o..o + |part|] == part
    ensures |preamble| + 2 + o + |part| <= |preamble + "\n\n" + s|
    ensures (preamble + "\n\n" + s)[|preamble| + 2 + o..|preamble| + 2 + o + |part|] == part
  {
    var head := preamble + "\n\n";
    assert |head| == |preamble| + 2;
    SliceAfterPrefix(head, s, o, o + |part|);
  }

  /** Between rules `k - 1` and `k` there is exactly one newline. */
  lemma {:induction false} AssembleSeparatorAt(preamble: string, rules: seq<string>, k: nat)
    requires 0 < k < |rules|
    ensures var css, gap := Assemble(preamble, rules), |preamble| + 2 + PartOffset("\n", rules, k - 1) + |rules[k - 1]|;
      && gap + 1 == |preamble| + 2 + PartOffset("\n", rules, k)
      && gap + 1 <= |css|
      && css[gap..gap + 1] == "\n"
  {
    var head, joined := preamble + "\n\n", Join("\n", rules);
    assert Assemble(preamble, rules) == head + joined;
    JoinSeparatorAt("\n", rules, k - 1);
    var o, o' := PartOffset("\n", rules, k - 1) + |rules[k - 1]|, PartOffset("\n", rules, k);
    SliceAfterPrefix(head, joined, o, o');
  }

  /** The URL in a record's rule is its `filePath` exactly when the file name
      ends in a lower-case `.svg` preceded by a character other than a dot; a
      name such as `A.SVG` gets the URL `folder/A.svg`, and a name such as
      `.svg` the URL `folder/.svg.svg`. */
  lemma {:induction false} RuleUrlIsFilePathIff(folder: string, filename: string)
    requires IsSvgName(filename)
    ensures var icon := MakeIcon(folder, filename);
      RuleUrl(folder, icon) == icon.filePath <==>
        HasStem(filename) && filename[|filename| - 4..] == ".svg"
  {
    var n, root := |filename|, SplitExtRoot(filename);
    assert n >= 4 by {
      SvgSuffix(filename);
    }
    var stem := HasStem(filename);
    assert root == if stem then filename[..n - 4] else filename by {
      SvgNameRoot(filename);
    }
    var icon := MakeIcon(folder, filename);
    assert RuleUrl(folder, icon) == (folder + "/") + (root + ".svg");
    assert icon.filePath == (folder + "/") + filename;
    PrefixCancel(folder + "/", root + ".svg", filename);
    if stem {
      ExtensionSwap(filename);
    } else {
      assert |root + ".svg"| == n + 4;
    }
  }

  /** Putting `.svg` back after the first `|s| - 4` characters gives `s`
      exactly when `s` already ends in `.svg`. */
  lemma {:induction false} ExtensionSwap(s: string)
    requires |s| >= 4
    ensures s[..|s| - 4] + ".svg" == s <==> s[|s| - 4..] == ".svg"
  {
    assert s == s[..|s| - 4] + s[|s| - 4..];
    PrefixCancel(s[..|s| - 4], ".svg", s[|s| - 4..]);
  }

  /** `splitext` of `A.SVG` cuts at its only dot. */
  lemma {:induction false} UpperCaseSvgRoot(name: string)
    requires name == "A.SVG"
    ensures SplitExtRoot(name) == "A"
  {
    var sepIndex, dotIndex := RFind(name, '/'), RFind(name, '.');
    assert forall k :: 0 <= k < |name| ==> name[k] != '/';
    assert sepIndex == -1;
    assert dotIndex == 1 by {
      assert name[1] == '.';
      assert dotIndex >= 0 ==> name[dotIndex] == '.';
    }
    var between := name[sepIndex + 1..dotIndex];
    assert between[0] == 'A';
    assert !AllDots(between);
    assert name[..dotIndex] == "A";
  }

  /** The upper-case file `A.SVG` in the folder `icons` keeps its name in
      `filePath` but is referenced by its rule as `A.svg`. */
  lemma {:induction false} UpperCaseExtensionUrl(folder: string, name: string)
    requires folder == "icons" && name == "A.SVG"
    ensures MakeIcon(folder, name).filePath == "icons/A.SVG"
    ensures RuleUrl(folder, MakeIcon(folder, name)) == "icons/A.svg"
  {
    var icon := MakeIcon(folder, name);
    UpperCaseSvgRoot(name);
    assert icon.fullName == "A";
  }
}
