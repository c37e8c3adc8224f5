/**
  `generate_markdown` of main.py: a fixed header followed, in list order, by
  one fixed-shape section per record.
*/
module Render {
  import opened Extract

  /** The introduction every report starts with. */
  const Header: string :=
    "## My Tampermonkey Userscripts\n\nThis is just my personal list of userscripts that I use. I will try to keep this list updated as I add or remove userscripts.\n\n"

  /** generate_markdown looks up the four keys of every record and no other. */
  predicate Renderable(scripts: seq<Info>) {
    forall i :: 0 <= i < |scripts| ==> FieldKeys <= scripts[i].Keys
  }

  /**
    The section of one record. It ends with the download line, where the
    download value is both the label and the target of the link, whatever
    that value is, and then the separator.
  */
  function Section(info: Info): (r: string)
    requires FieldKeys <= info.Keys
    ensures var tail := DownloadLine(info["downloadURL"]) + "\n\n---\n\n";
      |tail| <= |r| && r[|r| - |tail|..] == tail
  {
    var front := ("### " + info["name"] + "\n\n") + (info["description"] + "\n\n") + ("**Author:** " + info["author"] + "\n\n");
    var tail := DownloadLine(info["downloadURL"]) + "\n\n---\n\n";
    assert (front + tail)[|front|..] == tail;
    ("### " + info["name"] + "\n\n")
    + (info["description"] + "\n\n")
    + ("**Author:** " + info["author"] + "\n\n")
    + ("**Download:** [" + info["downloadURL"] + "](" + info["downloadURL"] + ")\n\n")
    + "---\n\n"
  }

  /** The sections of the records, in list order. */
  function Sections(scripts: seq<Info>): string
    requires Renderable(scripts)
  {
    if scripts == [] then [] else Section(scripts[0]) + Sections(scripts[1..])
  }

  /** The whole report; it always starts with the header. */
  function Markdown(scripts: seq<Info>): (r: string)
    requires Renderable(scripts)
    ensures |Header| <= |r| && r[..|Header|] == Header
  {
    var sections := Sections(scripts);
    assert (Header + sections)[..|Header|] == Header;
    Header + sections
  }

  /** With no records the report is exactly the header. */
  lemma MarkdownEmpty()
    ensures Markdown([]) == Header
  {
  }

  /** The sections of a concatenation are the concatenation of the sections. */
  lemma {:induction false} SectionsAppend(xs: seq<Info>, ys: seq<Info>)
    requires Renderable(xs) && Renderable(ys)
    ensures Renderable(xs + ys)
    ensures Sections(xs + ys) == Sections(xs) + Sections(ys)
  {
    if xs != [] {
      var zs := xs + ys;
      assert zs[0] == xs[0];
      assert zs[1..] == xs[1..] + ys;
      SectionsAppend(xs[1..], ys);
      var h, t := Section(xs[0]), Sections(xs[1..]);
      assert Sections(zs) == h + (t + Sections(ys));
      Assoc(h, t, Sections(ys));
    } else {
      assert xs + ys == ys;
    }
  }

  /** Appending a record appends its section to the report. */
  lemma {:induction false} MarkdownSnoc(xs: seq<Info>, x: Info)
    requires Renderable(xs) && FieldKeys <= x.Keys
    ensures Renderable(xs + [x])
    ensures Markdown(xs + [x]) == Markdown(xs) + Section(x)
  {
    var a, b := Sections(xs), Section(x);
    assert Sections([x]) == b by {
      assert Sections([x]) == b + Sections([]);
      assert b + [] == b;
    }
    SectionsAppend(xs, [x]);
    assert Markdown(xs + [x]) == Header + (a + b);
    Assoc(Header, a, b);
  }

  /** The report of the first i + 1 records extends the report of the first i by one section. */
  lemma {:induction false} MarkdownPrefix(xs: seq<Info>, i: nat)
    requires Renderable(xs) && i < |xs|
    ensures Renderable(xs[..i]) && Renderable(xs[..i + 1])
    ensures Markdown(xs[..i + 1]) == Markdown(xs[..i]) + Section(xs[i])
  {
    assert xs[..i + 1] == xs[..i] + [xs[i]];
    MarkdownSnoc(xs[..i], xs[i]);
  }

  /** Concatenation is associative. */
  lemma Assoc(a: string, b: string, c: string)
    ensures a + (b + c) == (a + b) + c
  {
  }

  /** Appending five pieces one by one appends their concatenation. */
  lemma AppendFive(m: string, a: string, b: string, c: string, d: string, e: string)
    ensures m + a + b + c + d + e == m + (a + b + c + d + e)
  {
  }

  /**
    The section of the i-th record stands in the report's sections right
    after the sections of the records before it (the report itself is the
    header followed by these sections).
  */
  lemma {:induction false} SectionAt(xs: seq<Info>, i: nat)
    requires Renderable(xs) && i < |xs|
    ensures var o := |Sections(xs[..i])|;
      o + |Section(xs[i])| <= |Sections(xs)| && Sections(xs)[o..o + |Section(xs[i])|] == Section(xs[i])
  {
    SectionsSplit(xs, i);
    InMiddle(Sections(xs[..i]), Section(xs[i]), Sections(xs[i + 1..]));
  }

  /** The sections of a list, split around its i-th record. */
  lemma {:induction false} SectionsSplit(xs: seq<Info>, i: nat)
    requires Renderable(xs) && i < |xs|
    ensures Renderable(xs[..i]) && Renderable(xs[i + 1..])
    ensures Sections(xs) == Sections(xs[..i]) + Section(xs[i]) + Sections(xs[i + 1..])
  {
    var tail := xs[i..];
    assert xs == xs[..i] + tail;
    assert tail[0] == xs[i] && tail[1..] == xs[i + 1..];
    SectionsAppend(xs[..i], tail);
    assert Sections(tail) == Section(xs[i]) + Sections(xs[i + 1..]);
    Assoc(Sections(xs[..i]), Section(xs[i]), Sections(xs[i + 1..]));
  }

  lemma InMiddle(a: string, b: string, c: string)
    ensures (a + b + c)[|a|..|a| + |b|] == b
  {
  }

  // --------------------------------------------- the report determines the records

  /** No value of the record spans more than one line (true of every extracted record). */
  predicate OneLine(info: Info) {
    FieldKeys <= info.Keys && forall key :: key in FieldKeys ==> '\n' !in info[key]
  }

  /** Two records render alike when their four fields agree. */
  predicate SameFields(x: Info, y: Info)
    requires FieldKeys <= x.Keys && FieldKeys <= y.Keys
  {
    forall key :: key in FieldKeys ==> x[key] == y[key]
  }

  /** Text up to a line break is determined by where the first line break is. */
  lemma SplitAtNewline(a: string, b: string, c: string, d: string)
    requires '\n' !in a && '\n' !in c
    requires a + "\n" + b == c + "\n" + d
    ensures a == c && b == d
  {
    var t := a + "\n" + b;
    forall k | 0 <= k < |a| ensures t[k] != '\n' { assert t[k] == a[k]; }
    forall k | 0 <= k < |c| ensures t[k] != '\n' { assert t[k] == c[k]; }
    FirstNewline(t, |a|, |c|);
    assert a == t[..|a|] && c == t[..|c|];
    assert b == t[|a| + 1..] && d == t[|c| + 1..];
  }

  /** Two indices of the first line break are the same index. */
  lemma FirstNewline(t: string, i: nat, j: nat)
    requires i < |t| && j < |t| && t[i] == '\n' && t[j] == '\n'
    requires forall k :: 0 <= k < i ==> t[k] != '\n'
    requires forall k :: 0 <= k < j ==> t[k] != '\n'
    ensures i == j
  {
  }

  /** A common prefix can be dropped. */
  lemma DropPrefix(p: string, b: string, d: string)
    requires p + b == p + d
    ensures b == d
  {
    assert b == (p + b)[|p|..] && d == (p + d)[|p|..];
  }

  /** The download line as it stands in a section. */
  function DownloadLine(u: string): string {
    "**Download:** [" + u + "](" + u + ")"
  }

  /** A record whose download value is the default "N/A" gets the link `[N/A](N/A)`. */
  lemma DownloadDefault(info: Info)
    requires FieldKeys <= info.Keys && info["downloadURL"] == NA
    ensures var sec := Section(info);
      31 <= |sec| && sec[|sec| - 31..] == "**Download:** [N/A](N/A)\n\n---\n\n"
  {
    DefaultTail();
    var sec := Section(info);
    var tail := DownloadLine(info["downloadURL"]) + "\n\n---\n\n";
    assert sec[|sec| - |tail|..] == tail;
  }

  /** The end of a section for the default download value, spelled out. */
  lemma DefaultTail()
    ensures var tail := DownloadLine(NA) + "\n\n---\n\n";
      |tail| == 31 && tail == "**Download:** [N/A](N/A)\n\n---\n\n"
  {
  }

  /** Section(x) + rest, regrouped line by line. */
  lemma SectionLines(x: Info, rest: string)
    requires FieldKeys <= x.Keys
    ensures Section(x) + rest ==
      "### " + x["name"] + "\n" + ("\n" + (x["description"] + "\n" + ("\n" + ("**Author:** " + x["author"] + "\n"
      + ("\n" + (DownloadLine(x["downloadURL"]) + "\n" + ("\n---\n\n" + rest)))))))
  {
  }

  /** The download line gives back the download value. */
  lemma DownloadLineInjective(u: string, v: string)
    requires DownloadLine(u) == DownloadLine(v)
    ensures u == v
  {
    var s := DownloadLine(u);
    assert |u| == |v|;
    assert u == s[15..15 + |u|];
    assert v == DownloadLine(v)[15..15 + |v|];
  }

  /**
    A section followed by anything else gives back its record's four fields
    and the text after it.
  */
  lemma {:induction false} SectionPrefixInjective(x: Info, r: string, y: Info, s: string)
    requires OneLine(x) && OneLine(y)
    requires Section(x) + r == Section(y) + s
    ensures SameFields(x, y) && r == s
  {
    SectionLines(x, r);
    SectionLines(y, s);
    var n1, n2 := x["name"], y["name"];
    var d1, d2 := x["description"], y["description"];
    var a1, a2 := x["author"], y["author"];
    var u1, u2 := x["downloadURL"], y["downloadURL"];
    var l1, l2 := DownloadLine(u1), DownloadLine(u2);
    var r7, s7 := "\n---\n\n" + r, "\n---\n\n" + s;
    var r6, s6 := l1 + "\n" + r7, l2 + "\n" + s7;
    var r4, s4 := "**Author:** " + a1 + "\n" + ("\n" + r6), "**Author:** " + a2 + "\n" + ("\n" + s6);
    var r2, s2 := d1 + "\n" + ("\n" + r4), d2 + "\n" + ("\n" + s4);
    SplitAtNewline("### " + n1, "\n" + r2, "### " + n2, "\n" + s2);
    DropPrefix("### ", n1, n2);
    DropPrefix("\n", r2, s2);
    SplitAtNewline(d1, "\n" + r4, d2, "\n" + s4);
    DropPrefix("\n", r4, s4);
    SplitAtNewline("**Author:** " + a1, "\n" + r6, "**Author:** " + a2, "\n" + s6);
    DropPrefix("**Author:** ", a1, a2);
    DropPrefix("\n", r6, s6);
    SplitAtNewline(l1, r7, l2, s7);
    DownloadLineInjective(u1, u2);
    DropPrefix("\n---\n\n", r, s);
  }

  /** Only the empty list has no sections. */
  lemma {:induction false} SectionsEmpty(xs: seq<Info>)
    requires Renderable(xs)
    ensures Sections(xs) == [] <==> xs == []
  {
    if xs != [] {
      assert |Section(xs[0])| > 0;
    }
  }

  /**
    The sections of one-line records give back the records' four fields,
    one for one and in order.
  */
  lemma {:induction false} SectionsInjective(xs: seq<Info>, ys: seq<Info>)
    requires forall i :: 0 <= i < |xs| ==> OneLine(xs[i])
    requires forall i :: 0 <= i < |ys| ==> OneLine(ys[i])
    requires Renderable(xs) && Renderable(ys)
    requires Sections(xs) == Sections(ys)
    ensures |xs| == |ys| && forall i :: 0 <= i < |xs| ==> SameFields(xs[i], ys[i])
  {
    SectionsEmpty(xs);
    SectionsEmpty(ys);
    if xs != [] {
      var xt, yt := xs[1..], ys[1..];
      SectionPrefixInjective(xs[0], Sections(xt), ys[0], Sections(yt));
      SectionsInjective(xt, yt);
      SameFieldsCons(xs, ys);
    }
  }

  /** Field agreement at the heads and along the tails is agreement at every index. */
  lemma SameFieldsCons(xs: seq<Info>, ys: seq<Info>)
    requires Renderable(xs) && Renderable(ys)
    requires 0 < |xs| == |ys| && SameFields(xs[0], ys[0])
    requires forall i :: 0 <= i < |xs| - 1 ==> SameFields(xs[1..][i], ys[1..][i])
    ensures forall i :: 0 <= i < |xs| ==> SameFields(xs[i], ys[i])
  {
    forall i | 0 < i < |xs| ensures SameFields(xs[i], ys[i]) {
      assert xs[i] == xs[1..][i - 1] && ys[i] == ys[1..][i - 1];
    }
  }

  /**
    The report determines the list it was rendered from, up to keys other
    than the four it shows, as long as no value spans two lines.
  */
  lemma {:induction false} MarkdownInjective(xs: seq<Info>, ys: seq<Info>)
    requires forall i :: 0 <= i < |xs| ==> OneLine(xs[i])
    requires forall i :: 0 <= i < |ys| ==> OneLine(ys[i])
    requires Renderable(xs) && Renderable(ys)
    requires Markdown(xs) == Markdown(ys)
    ensures |xs| == |ys| && forall i :: 0 <= i < |xs| ==> SameFields(xs[i], ys[i])
  {
    DropPrefix(Header, Sections(xs), Sections(ys));
    SectionsInjective(xs, ys);
  }

  /** Every record extract_script_info returns is one-line, hence fit for rendering. */
  lemma ExtractedOneLine(content: string, info: Info)
    requires info.Keys == FieldKeys
    requires forall key :: key in info ==> info[key] == FieldValue(content, key)
    ensures OneLine(info)
  {
  }

  /** generate_markdown: the header, then each record's section appended in turn. */
  method GenerateMarkdown(scripts: seq<Info>) returns (markdown: string)
    requires Renderable(scripts)
    ensures markdown == Markdown(scripts)
  {
    markdown := Header;
    for i := 0 to |scripts|
      invariant Renderable(scripts[..i])
      invariant markdown == Markdown(scripts[..i])
    {
      var script := scripts[i];
      ghost var before := markdown;
      markdown := markdown + ("### " + script["name"] + "\n\n");
      markdown := markdown + (script["description"] + "\n\n");
      markdown := markdown + ("**Author:** " + script["author"] + "\n\n");
      markdown := markdown + ("**Download:** [" + script["downloadURL"] + "](" + script["downloadURL"] + ")\n\n");
      markdown := markdown + "---\n\n";
      AppendFive(before, "### " + script["name"] + "\n\n", script["description"] + "\n\n",
        "**Author:** " + script["author"] + "\n\n",
        "**Download:** [" + script["downloadURL"] + "](" + script["downloadURL"] + ")\n\n", "---\n\n");
      MarkdownPrefix(scripts, i);
    }
    assert scripts[..|scripts|] == scripts;
  }
}
