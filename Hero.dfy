/** The hero banner: a greeting typed out one character per timer tick, the owner's
    name highlighted inside the typed text, and the description, buttons and social
    icons that appear only once typing has finished. */
module Hero {
  import opened Wrappers

  /** The text before the name in the greeting. */
  const Greeting: string := "Hey, I'm "

  /** The text between the name and the role: a space, the three characters U+00E2,
      U+0153 and U+00A8 (the sparkles emoji as stored in the banner's source, decoded
      the wrong way), and a line break. */
  const Separator: string := " \U{00E2}\U{0153}\U{00A8}\n"

  /** The full text that is typed out. */
  function FullText(name: string, role: string): (t: string)
    ensures |t| == |Greeting| + |name| + |Separator| + |role|
    ensures t[..|Greeting|] == Greeting
    ensures t[|Greeting|..|Greeting| + |name|] == name
    ensures t[|Greeting| + |name|..|t| - |role|] == Separator
    ensures t[|t| - |role|..] == role
    ensures |t| >= |Greeting| + |Separator| > 0
  {
    Greeting + name + Separator + role
  }

  // ---------------------------------------------------------------------------
  // String search and splitting, with the semantics of JavaScript's String
  // methods `indexOf`, `includes` and `split` (on a string separator).
  // ---------------------------------------------------------------------------

  /** `sub` occurs in `s` starting at position `k`. */
  predicate OccursAt(s: string, sub: string, k: int)
  {
    0 <= k && k + |sub| <= |s| && s[k..k + |sub|] == sub
  }

  /** The first position at or after `from` where `sub` occurs in `s`, or -1. */
  function IndexOf(s: string, sub: string, from: nat): (r: int)
    ensures r == -1 || (from <= r && OccursAt(s, sub, r))
    ensures r == -1 ==> forall k :: from <= k ==> !OccursAt(s, sub, k)
    ensures r >= 0 ==> forall k :: from <= k < r ==> !OccursAt(s, sub, k)
    decreases |s| - from
  {
    if from + |sub| > |s| then -1
    else if s[from..from + |sub|] == sub then from
    else IndexOf(s, sub, from + 1)
  }

  /** JavaScript's `s.includes(sub)`. */
  function Includes(s: string, sub: string): (b: bool)
    ensures b <==> exists k :: OccursAt(s, sub, k)
  {
    IndexOf(s, sub, 0) >= 0
  }

  /** JavaScript's `s.split(sep)` for a non-empty separator: the pieces between
      successive non-overlapping occurrences of `sep`, searched left to right. */
  function SplitOn(s: string, sep: string): (parts: seq<string>)
    requires sep != ""
    ensures |parts| >= 1
    decreases |s|
  {
    var j := IndexOf(s, sep, 0);
    if j < 0 then [s] else [s[..j]] + SplitOn(s[j + |sep|..], sep)
  }

  /** JavaScript's `s.split(sep)`; the empty separator cuts `s` into single characters. */
  function JsSplit(s: string, sep: string): (parts: seq<string>)
    ensures sep != "" ==> |parts| >= 1
    ensures sep == "" ==> |parts| == |s| && forall k :: 0 <= k < |parts| ==> |parts[k]| == 1
  {
    if sep == "" then seq(|s|, k requires 0 <= k < |s| => [s[k]]) else SplitOn(s, sep)
  }

  /** The pieces joined back together with `sep` between successive ones
      (JavaScript's `parts.join(sep)`). */
  function Join(parts: seq<string>, sep: string): string
    decreases |parts|
  {
    if |parts| == 0 then "" else if |parts| == 1 then parts[0] else parts[0] + sep + Join(parts[1..], sep)
  }

  /** Splitting on a non-empty separator loses nothing: joining the pieces with the
      separator gives back the text. */
  lemma {:induction false} SplitOnJoin(s: string, sep: string)
    requires sep != ""
    ensures Join(SplitOn(s, sep), sep) == s
    decreases |s|
  {
    var j := IndexOf(s, sep, 0);
    if j >= 0 {
      var before, rest := s[..j], s[j + |sep|..];
      SplitOnJoin(rest, sep);
      SplitOnFound(s, sep, j);
      JoinCons(before, SplitOn(rest, sep), sep);
      Reassemble(s, sep, j);
    }
  }

  /** Where the separator is found first at `j`, the first piece is the text before
      `j` and the rest are the pieces of the text after the separator. */
  lemma SplitOnFound(s: string, sep: string, j: int)
    requires sep != "" && j == IndexOf(s, sep, 0) && j >= 0
    ensures SplitOn(s, sep) == [s[..j]] + SplitOn(s[j + |sep|..], sep)
  {
  }

  /** Joining a piece in front of at least one other puts the separator between them. */
  lemma JoinCons(a: string, tail: seq<string>, sep: string)
    requires |tail| >= 1
    ensures Join([a] + tail, sep) == a + sep + Join(tail, sep)
  {
    assert ([a] + tail)[1..] == tail;
  }

  /** A text is the part before an occurrence, the occurrence and the part after it. */
  lemma Reassemble(s: string, sub: string, j: int)
    requires OccursAt(s, sub, j)
    ensures s == s[..j] + sub + s[j + |sub|..]
  {
  }

  /** No piece of a split on a non-empty separator contains the separator. */
  lemma {:induction false} SplitOnPiecesClean(s: string, sep: string)
    requires sep != ""
    ensures forall k :: 0 <= k < |SplitOn(s, sep)| ==> !Includes(SplitOn(s, sep)[k], sep)
    decreases |s|
  {
    var j := IndexOf(s, sep, 0);
    if j >= 0 {
      var rest := s[j + |sep|..];
      SplitOnPiecesClean(rest, sep);
      var tail := SplitOn(rest, sep);
      var parts := [s[..j]] + tail;
      assert SplitOn(s, sep) == parts;
      forall m | OccursAt(s[..j], sep, m) ensures false {
        OccursInPrefix(s, sep, j, m);
      }
      forall k | 0 <= k < |parts| ensures !Includes(parts[k], sep) {
        if k > 0 {
          assert parts[k] == tail[k - 1];
        }
      }
    }
  }

  /** Whatever the separator, joining the pieces of a split with it gives back the text. */
  lemma {:induction false} JsSplitJoin(s: string, sep: string)
    ensures Join(JsSplit(s, sep), sep) == s
    decreases |s|
  {
    if sep != "" {
      SplitOnJoin(s, sep);
    } else if |s| >= 2 {
      JsSplitJoin(s[1..], sep);
      assert JsSplit(s, sep)[1..] == JsSplit(s[1..], sep);
      assert s == [s[0]] + s[1..];
    } else if |s| == 1 {
      assert JsSplit(s, sep)[0] == [s[0]] == s;
    }
  }

  /** `parts[k]`, where a missing piece (`undefined`) renders as nothing. */
  function PieceOr(parts: seq<string>, k: nat): string
  {
    if k < |parts| then parts[k] else ""
  }

  // ---------------------------------------------------------------------------
  // The name highlight.
  // ---------------------------------------------------------------------------

  /** The typed title: plain text, or text with the name drawn in a highlight colour. */
  datatype Title = Plain(text: string) | Highlighted(before: string, name: string, after: string)

  /** The characters the reader sees. */
  function Visible(t: Title): string
  {
    match t
    case Plain(text) => text
    case Highlighted(before, name, after) => before + name + after
  }

  /** The highlight as the banner writes it: when the typed text includes the name,
      piece 0 of splitting on the name, the name, and piece 1. */
  function HighlightAsWritten(displayed: string, name: string): (t: Title)
    ensures !Includes(displayed, name) ==> t == Plain(displayed)
    ensures Includes(displayed, name) ==> t.Highlighted? && t.name == name
  {
    if Includes(displayed, name) then
      var parts := JsSplit(displayed, name);
      Highlighted(PieceOr(parts, 0), name, PieceOr(parts, 1))
    else
      Plain(displayed)
  }

  /** The name occurs in `s` exactly once, at `j`. */
  ghost predicate OccursOnlyAt(s: string, name: string, j: nat)
  {
    OccursAt(s, name, j) && forall m :: OccursAt(s, name, m) ==> m == j
  }

  /** An occurrence of `sub` in a suffix is an occurrence in the whole string. */
  lemma OccursInSuffix(s: string, sub: string, d: nat, m: int)
    requires d <= |s| && OccursAt(s[d..], sub, m)
    ensures OccursAt(s, sub, d + m)
  {
  }

  /** An occurrence of `sub` in a prefix is an occurrence in the whole string. */
  lemma OccursInPrefix(s: string, sub: string, k: nat, m: int)
    requires k <= |s| && OccursAt(s[..k], sub, m)
    ensures OccursAt(s, sub, m) && m + |sub| <= k
  {
  }

  /** When the typed text contains a non-empty name exactly once, the three rendered
      pieces are the text before it, the name and the text after it, so together they
      give back the typed text. */
  lemma HighlightAsWrittenOnce(s: string, name: string, j: nat)
    requires name != "" && OccursOnlyAt(s, name, j)
    ensures HighlightAsWritten(s, name) == Highlighted(s[..j], name, s[j + |name|..])
    ensures Visible(HighlightAsWritten(s, name)) == s
  {
    assert IndexOf(s, name, 0) == j;
    var rest := s[j + |name|..];
    forall m | OccursAt(rest, name, m) ensures false {
      OccursInSuffix(s, name, j + |name|, m);
    }
    assert IndexOf(rest, name, 0) == -1;
    assert SplitOn(s, name) == [s[..j], rest];
    assert s == s[..j] + name + rest;
  }

  /** A second, later occurrence of the name makes the rendered title shorter than
      the typed text: everything from the second occurrence on is not shown. */
  lemma HighlightAsWrittenDropsText(s: string, name: string, j: nat, m: nat)
    requires name != "" && OccursAt(s, name, j) && OccursAt(s, name, m) && j + |name| <= m
    ensures |Visible(HighlightAsWritten(s, name))| < |s|
  {
    var j0 := IndexOf(s, name, 0);
    assert 0 <= j0 <= j;
    var rest := s[j0 + |name|..];
    assert rest[m - j0 - |name|..m - j0] == s[m..m + |name|];
    assert OccursAt(rest, name, m - j0 - |name|);
    var j2 := IndexOf(rest, name, 0);
    assert 0 <= j2 && j2 + |name| <= |rest|;
    var parts := SplitOn(s, name);
    assert parts == [s[..j0]] + SplitOn(rest, name);
    assert SplitOn(rest, name)[0] == rest[..j2];
    assert PieceOr(parts, 1) == rest[..j2];
  }

  /** Concretely: with the name "Sam" and the role "Sam Dev", the fully typed title
      loses its second line. */
  lemma SecondNameDropped()
    ensures Visible(HighlightAsWritten(FullText("Sam", "Sam Dev"), "Sam")) != FullText("Sam", "Sam Dev")
  {
    var t := FullText("Sam", "Sam Dev");
    assert t[9..12] == "Sam";
    assert t[17..20] == "Sam";
    HighlightAsWrittenDropsText(t, "Sam", 9, 17);
  }

  /** With an empty name, which every text includes, the text is cut into single
      characters and only the first two of them are shown. */
  lemma HighlightAsWrittenEmptyName(s: string)
    requires |s| >= 3
    ensures Visible(HighlightAsWritten(s, "")) == s[..2]
    ensures |Visible(HighlightAsWritten(s, ""))| < |s|
  {
  }

  /** The name occurs in `s` at most once. */
  ghost predicate AtMostOnce(s: string, name: string)
  {
    forall j, m :: OccursAt(s, name, j) && OccursAt(s, name, m) ==> j == m
  }

  /** The banner's own rendering shows the whole typed text exactly in the cases it
      handles right: a non-empty name that occurs at most once. */
  lemma HighlightAsWrittenVisible(s: string, name: string)
    ensures name != "" && AtMostOnce(s, name) ==> Visible(HighlightAsWritten(s, name)) == s
  {
    var j := IndexOf(s, name, 0);
    if name != "" && AtMostOnce(s, name) && j >= 0 {
      HighlightAsWrittenOnce(s, name, j);
    }
  }

  /** A name that occurs at most once in a text occurs at most once in each of its
      prefixes. */
  lemma AtMostOnceInPrefix(s: string, name: string, k: nat)
    requires k <= |s|
    ensures AtMostOnce(s, name) ==> AtMostOnce(s[..k], name)
  {
    if AtMostOnce(s, name) {
      forall j, m | OccursAt(s[..k], name, j) && OccursAt(s[..k], name, m) ensures j == m {
        OccursInPrefix(s, name, k, j);
        OccursInPrefix(s, name, k, m);
      }
    }
  }

  /** For the banner as the site uses it, "Samuel" occurs once in the full text, so
      every typed prefix is shown in full by the banner's own rendering: the two
      findings above do not arise for the shipped name and role. */
  lemma ShippedNameShownInFull(k: nat)
    requires k <= |FullText("Samuel", "A Fullstack Developer")|
    ensures Visible(HighlightAsWritten(FullText("Samuel", "A Fullstack Developer")[..k], "Samuel"))
         == FullText("Samuel", "A Fullstack Developer")[..k]
  {
    var t := FullText("Samuel", "A Fullstack Developer");
    forall j, m | OccursAt(t, "Samuel", j) && OccursAt(t, "Samuel", m) ensures j == m {
      ShippedNameOnlyAt9(t, j);
      ShippedNameOnlyAt9(t, m);
    }
    AtMostOnceInPrefix(t, "Samuel", k);
    HighlightAsWrittenVisible(t[..k], "Samuel");
  }

  /** The only 'S' of the shipped full text is the name's first letter. */
  lemma ShippedNameOnlyAt9(t: string, m: int)
    requires t == FullText("Samuel", "A Fullstack Developer") && OccursAt(t, "Samuel", m)
    ensures m == 9
  {
    var role := "A Fullstack Developer";
    assert 'S' !in "amuel" && 'S' !in Separator && 'S' !in role && 'S' !in Greeting;
    var rest := "amuel" + Separator + role;
    assert 'S' !in rest;
    SplitAfterFirst(Greeting, "Samuel", Separator, role);
    assert t[m] == 'S';
    OnlyOccurrence(Greeting, 'S', rest, m);
  }

  /** The greeting's parts regrouped around the name's first character. */
  lemma SplitAfterFirst(g: string, n: string, sep: string, r: string)
    requires n != ""
    ensures g + n + sep + r == g + [n[0]] + (n[1..] + sep + r)
  {
    assert n == [n[0]] + n[1..];
  }

  /** In `a + [c] + b` with `c` in neither `a` nor `b`, the only `c` is at `|a|`. */
  lemma OnlyOccurrence(a: string, c: char, b: string, m: int)
    requires c !in a && c !in b && 0 <= m < |a + [c] + b| && (a + [c] + b)[m] == c
    ensures m == |a|
  {
  }

  /** The highlight with the name found at its first occurrence: the text
      before it and everything after it. */
  function Highlight(displayed: string, name: string): (t: Title)
    ensures Visible(t) == displayed
    ensures t.Highlighted? <==> Includes(displayed, name)
    ensures t.Highlighted? ==> t.name == name && OccursAt(displayed, name, |t.before|)
    ensures t.Highlighted? ==> forall k :: 0 <= k < |t.before| ==> !OccursAt(displayed, name, k)
  {
    var j := IndexOf(displayed, name, 0);
    if j >= 0 then
      assert displayed == displayed[..j] + name + displayed[j + |name|..];
      Highlighted(displayed[..j], name, displayed[j + |name|..])
    else
      Plain(displayed)
  }

  /** Wherever the banner's own rendering is right (the name occurs exactly once) the
      corrected highlight renders the same title. */
  lemma HighlightAgreesWhenOnce(s: string, name: string)
    ensures name != "" && AtMostOnce(s, name) ==> Highlight(s, name) == HighlightAsWritten(s, name)
  {
    var j := IndexOf(s, name, 0);
    if name != "" && AtMostOnce(s, name) && j >= 0 {
      HighlightAsWrittenOnce(s, name, j);
    }
  }

  /** While typing, the title stays plain until the whole name has been typed and is
      highlighted from then on, provided the name first occurs where the greeting
      puts it. */
  lemma HighlightOnceNameTyped(name: string, role: string, k: nat)
    requires IndexOf(FullText(name, role), name, 0) == |Greeting|
    requires k <= |FullText(name, role)|
    ensures Highlight(FullText(name, role)[..k], name).Highlighted? <==> k >= |Greeting| + |name|
    ensures HighlightAsWritten(FullText(name, role)[..k], name).Highlighted? <==> k >= |Greeting| + |name|
  {
    var t := FullText(name, role);
    if k >= |Greeting| + |name| {
      assert t[..k][|Greeting|..|Greeting| + |name|] == name;
      assert OccursAt(t[..k], name, |Greeting|);
    } else {
      forall m | OccursAt(t[..k], name, m) ensures false {
        OccursInPrefix(t, name, k, m);
      }
    }
  }

  /** For the banner as the site uses it, "Samuel" is highlighted from the moment its
      last letter has been typed. */
  lemma ShippedNameHighlight(k: nat)
    requires k <= |FullText("Samuel", "A Fullstack Developer")|
    ensures Highlight(FullText("Samuel", "A Fullstack Developer")[..k], "Samuel").Highlighted?
        <==> k >= 15
    ensures HighlightAsWritten(FullText("Samuel", "A Fullstack Developer")[..k], "Samuel").Highlighted?
        <==> k >= 15
  {
    var t := FullText("Samuel", "A Fullstack Developer");
    forall m | 0 <= m < |Greeting| ensures !OccursAt(t, "Samuel", m) {
      assert t[m] == Greeting[m];
    }
    assert OccursAt(t, "Samuel", |Greeting|);
    assert IndexOf(t, "Samuel", 0) == |Greeting|;
    HighlightOnceNameTyped("Samuel", "A Fullstack Developer", k);
  }

  // ---------------------------------------------------------------------------
  // What appears once typing is done.
  // ---------------------------------------------------------------------------

  /** A call-to-action button with its entrance delay in tenths of a second. */
  datatype HeroButton = HeroButton(text: string, href: string, delayTenths: nat)

  /** Button `i`: the first one leads to the contact section, the others to the
      projects; each enters 0.3 s after the previous one. */
  function ButtonAt(i: nat, text: string): (b: HeroButton)
    ensures b.text == text && b.delayTenths == 3 * i
    ensures b.href == "#contact" <==> i == 0
    ensures i > 0 ==> b.href == "#projects"
  {
    HeroButton(text, if i == 0 then "#contact" else "#projects", 3 * i)
  }

  const ButtonTexts: seq<string> := ["Contact Me", "View Projects"]

  /** Delay of the social icons, in tenths of a second. */
  const SocialDelayTenths: nat := 12

  /** The banner below the avatar. */
  datatype HeroView = HeroView(
    title: Title,
    description: Option<string>,
    buttons: seq<HeroButton>,
    socialDelay: Option<nat>)

  /** The banner for the typed text, as the banner writes it: the title is always
      there, and shows the whole typed text when the name is non-empty and occurs at
      most once; description, buttons and social icons appear only once typing is
      done. */
  function Render(displayed: string, typingDone: bool, name: string, description: string): (v: HeroView)
    ensures v.title.Highlighted? <==> Includes(displayed, name)
    ensures name != "" && AtMostOnce(displayed, name) ==> Visible(v.title) == displayed
    ensures v.description.Some? <==> typingDone
    ensures typingDone ==> v.description == Some(description)
    ensures v.socialDelay.Some? <==> typingDone
    ensures typingDone ==> v.socialDelay == Some(SocialDelayTenths)
    ensures !typingDone ==> v.buttons == []
    ensures typingDone ==> |v.buttons| == |ButtonTexts|
    ensures forall i :: 0 <= i < |v.buttons| ==> v.buttons[i] == ButtonAt(i, ButtonTexts[i])
    ensures forall i :: 0 <= i < |v.buttons| ==>
              v.buttons[i].text == ButtonTexts[i] && v.buttons[i].delayTenths == 3 * i
  {
    HighlightAsWrittenVisible(displayed, name);
    HeroView(
      HighlightAsWritten(displayed, name),
      if typingDone then Some(description) else None,
      if typingDone then seq(|ButtonTexts|, i requires 0 <= i < |ButtonTexts| => ButtonAt(i, ButtonTexts[i])) else [],
      if typingDone then Some(SocialDelayTenths) else None)
  }

  /** The banner with the corrected highlight: the visible title is always the typed
      text, everything else is as in `Render`, and where the banner's own rendering
      is right the two agree. */
  function RenderCorrected(displayed: string, typingDone: bool, name: string, description: string): (v: HeroView)
    ensures Visible(v.title) == displayed
    ensures v.(title := HighlightAsWritten(displayed, name)) == Render(displayed, typingDone, name, description)
    ensures name != "" && AtMostOnce(displayed, name) ==> v == Render(displayed, typingDone, name, description)
  {
    HighlightAgreesWhenOnce(displayed, name);
    Render(displayed, typingDone, name, description).(title := Highlight(displayed, name))
  }

  /** Buttons enter in order: delays never decrease along the row. */
  lemma ButtonDelaysNonDecreasing(displayed: string, name: string, description: string, i: nat, j: nat)
    requires i <= j < |ButtonTexts|
    ensures Render(displayed, true, name, description).buttons[i].delayTenths
         <= Render(displayed, true, name, description).buttons[j].delayTenths
  {
  }

  // ---------------------------------------------------------------------------
  // The typing effect.
  // ---------------------------------------------------------------------------

  /** The typing effect of a mounted banner: the tick counter, the published text,
      whether typing is done and whether the interval timer is still scheduled. */
  class Typewriter {
    const name: string
    const role: string
    const fullText: string
    var i: nat
    var displayedText: string
    var typingDone: bool
    var ticking: bool

    /** The published text is always the first `i` characters of the full text, and
        the timer runs exactly until all of it has been published. */
    ghost predicate Valid()
      reads this
    {
      && fullText == FullText(name, role)
      && i <= |fullText|
      && displayedText == fullText[..i]
      && typingDone == (i == |fullText|)
      && ticking == !typingDone
    }

    /** Mounting: nothing typed yet, the timer scheduled. */
    constructor (name: string, role: string)
      ensures Valid()
      ensures this.name == name && this.role == role
      ensures i == 0 && displayedText == "" && !typingDone && ticking
    {
      this.name := name;
      this.role := role;
      fullText := FullText(name, role);
      i := 0;
      displayedText := "";
      typingDone := false;
      ticking := true;
    }

    /** One timer tick: publish one more character; after the last one clear the
        timer and mark typing as done. */
    method Tick()
      requires Valid() && ticking
      modifies this
      ensures Valid()
      ensures i == old(i) + 1
      ensures displayedText == fullText[..i]
      ensures old(displayedText) == displayedText[..|displayedText| - 1]
      ensures typingDone <==> displayedText == fullText
    {
      displayedText := fullText[..i + 1];
      i := i + 1;
      if i == |fullText| {
        ticking := false;
        typingDone := true;
      }
    }

    /** What the banner shows right now. */
    function View(description: string): (v: HeroView)
      reads this
      requires Valid()
      ensures name != "" && AtMostOnce(fullText, name) ==> Visible(v.title) == fullText[..i]
      ensures v.description.Some? <==> i == |fullText|
      ensures i < |fullText| ==> v.buttons == []
    {
      AtMostOnceInPrefix(fullText, name, i);
      HighlightAsWrittenVisible(fullText[..i], name);
      Render(displayedText, typingDone, name, description)
    }
  }

  /** The timer firing until it is cleared: the published texts are the prefixes of
      the full text of length 0, 1, ..., |full text|, one per tick, the last one the
      whole text. */
  method TypeOut(name: string, role: string) returns (published: seq<string>, ticks: nat)
    ensures ticks == |FullText(name, role)|
    ensures |published| == ticks + 1
    ensures forall k :: 0 <= k < |published| ==> published[k] == FullText(name, role)[..k]
    ensures published[ticks] == FullText(name, role)
  {
    var t := new Typewriter(name, role);
    published := [t.displayedText];
    ticks := 0;
    while t.ticking
      invariant t.Valid() && t.name == name && t.role == role
      invariant ticks == t.i
      invariant |published| == ticks + 1
      invariant forall k :: 0 <= k < |published| ==> published[k] == t.fullText[..k]
      decreases |t.fullText| - t.i
    {
      t.Tick();
      published := published + [t.displayedText];
      ticks := ticks + 1;
    }
  }
}
