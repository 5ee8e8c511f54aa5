/** The hooks that the renderer installs on the markdown parser: `text`,
    `listitem`, `code`, and the wrapper around the inline lexer's `output`.
    The parser's own renderers and lexer are not modelled and enter as function
    parameters. */
module Renderer {
  import opened Wrappers
  import opened JsRegex
  import opened Emoji
  import opened Preprocessor

  // ------------------------------------------------------------------ text

  /** The image that stands for the emoji whose (escaped) name is `name`. */
  function EmojiImage(name: string): string {
    ImageTag(UnescapeUnderscore(name))
  }

  /** `<img alt=":n:" src="emoji://n" />` */
  function ImageTag(n: string): string {
    "<img alt=\":" + n + ":\" src=\"emoji://" + n + "\" />"
  }

  /** What a text node reading exactly `Done` becomes. */
  const DoneHeading: string := "<h4 class=\"done-list\">Done</h4>"

  /** renderer.text: emoji tokens become images, then a node that is exactly
      `Done` (`^Done$` without the m flag) becomes the done heading. */
  function Text(text: string): string {
    var withImages := ReplaceEmoji(text, EmojiImage);
    if withImages == "Done" then DoneHeading else withImages
  }

  /** The scan yields a string without '<' only by copying: every image
      starts with '<'. */
  lemma {:induction false} NoImageMeansCopy(t: string)
    ensures '<' !in ReplaceEmoji(t, EmojiImage) ==> ReplaceEmoji(t, EmojiImage) == t
    decreases |t|
  {
    if t != [] {
      if TokenLen(t) > 0 {
        assert ReplaceEmoji(t, EmojiImage)[0] == '<';
      } else {
        assert ReplaceEmoji(t, EmojiImage) == [t[0]] + ReplaceEmoji(t[1..], EmojiImage);
        NoImageMeansCopy(t[1..]);
      }
    }
  }

  /** The Done rule fires exactly on the text `Done` itself: no emoji image
      turns into it. */
  lemma ImagesNotDone(text: string)
    ensures ReplaceEmoji(text, EmojiImage) == "Done" <==> text == "Done"
  {
    NoColonTokenFree("Done");
    ReplaceEmojiTokenFree("Done", EmojiImage);
    NoImageMeansCopy(text);
  }

  /** The Done rule looks at the text node as a whole. */
  lemma TextDoneRule(text: string)
    ensures Text(text) == if text == "Done" then DoneHeading else ReplaceEmoji(text, EmojiImage)
  {
    ImagesNotDone(text);
  }

  /** A text node without emoji tokens is copied, except the node `Done`. */
  lemma TextPlain(text: string)
    requires TokenFree(text) && text != "Done"
    ensures Text(text) == text
  {
    ReplaceEmojiTokenFree(text, EmojiImage);
  }

  /** A token at the start of a text node becomes an image whose alt text and
      source carry the name with its underscores restored. */
  lemma TextEmoji(name: string, rest: string)
    requires |name| >= 1 && All(name, IsNameChar)
    ensures Text(":" + name + ":" + rest) == ImageTag(UnescapeUnderscore(name)) + ReplaceEmoji(rest, EmojiImage)
  {
    ReplaceEmojiToken(name, rest, EmojiImage);
    var r := ReplaceEmoji(":" + name + ":" + rest, EmojiImage);
    assert r[0] == '<';
  }

  // -------------------------------------------------------------- listitem

  /** What `^\[(x|\s)\]\s*(.+)$` captures: whether the box is ticked, and
      the caption. */
  datatype TaskItem = TaskItem(checked: bool, caption: string)

  /** text matches `^\[(x|\s)\]\s*(.+)$` with the caption starting at j. */
  predicate IsTaskSplit(text: string, j: nat) {
    3 <= j < |text| && text[0] == '[' && (text[1] == 'x' || IsSpace(text[1])) && text[2] == ']'
    && All(text[3..j], IsSpace) && All(text[j..], IsDot)
  }

  /** listItemRegex.exec(text). The greedy `\s*` takes as much whitespace as
      still leaves `.+` at least one character. */
  function ParseTaskItem(text: string): (r: Option<TaskItem>)
    ensures r.Some? ==> |r.value.caption| <= |text| && IsTaskSplit(text, |text| - |r.value.caption|)
    ensures r.Some? ==> r.value.caption == text[|text| - |r.value.caption|..] && r.value.checked == (text[1] == 'x')
    ensures r.Some? ==> forall j: nat :: IsTaskSplit(text, j) ==> j <= |text| - |r.value.caption|
    ensures r.None? ==> forall j: nat :: !IsTaskSplit(text, j)
  {
    if |text| < 4 || text[0] != '[' || !(text[1] == 'x' || IsSpace(text[1])) || text[2] != ']' then None
    else
      var k := 3 + Run(text[3..], IsSpace);
      var j := if k < |text| then k else |text| - 1;
      RunCovers(text, IsSpace, 3, j);
      assert forall j': nat :: IsTaskSplit(text, j') ==> j' <= j by {
        forall j': nat | IsTaskSplit(text, j') ensures j' <= j {
          RunIsLongest(text, IsSpace, 3, j');
        }
      }
      if All(text[j..], IsDot) then Some(TaskItem(text[1] == 'x', text[j..]))
      else
        assert forall j': nat :: !IsTaskSplit(text, j') by {
          forall j': nat | IsTaskSplit(text, j') ensures false {
            AllSuffix(text, IsDot, j', j);
          }
        }
        None
  }

  /** The markup around a task item's checked flag and caption. */
  const TaskItemOpen := "<li class=\"task-list-item\"><label><input type=\"checkbox\" class=\"task-list-item-checkbox\" disabled "
  const TaskItemClose := "</label></li>"

  /** The list item markup of a task item. */
  function TaskItemHtml(item: TaskItem): string {
    TaskItemOpen + (if item.checked then "checked" else "") + " /> " + item.caption + TaskItemClose
  }

  /** renderer.listitem: a task item becomes a disabled checkbox with its
      caption; any other item goes to the parser's own list item renderer. */
  function ListItem(text: string, defaultListItem: string -> string): string {
    match ParseTaskItem(text)
    case Some(item) => TaskItemHtml(item)
    case None => defaultListItem(text)
  }

  /** The caption of a split: what follows the leading whitespace. */
  lemma TaskSplitAt(box: char, gap: string, caption: string)
    requires box == 'x' || IsSpace(box)
    requires All(gap, IsSpace) && |caption| >= 1 && All(caption, IsDot) && !IsSpace(caption[0])
    ensures ParseTaskItem("[" + [box] + "]" + gap + caption) == Some(TaskItem(box == 'x', caption))
  {
    var text := "[" + [box] + "]" + gap + caption;
    var j := 3 + |gap|;
    assert text[3..j] == gap && text[j..] == caption;
    assert IsTaskSplit(text, j);
    assert text[j] == caption[0];
    RunExact(text, IsSpace, 3, j);
  }

  /** `[x]`, optional whitespace and a one-line caption render as a ticked,
      disabled checkbox followed by the caption. */
  lemma ListItemChecked(gap: string, caption: string, defaultListItem: string -> string)
    requires All(gap, IsSpace) && |caption| >= 1 && All(caption, IsDot) && !IsSpace(caption[0])
    ensures ListItem("[x]" + gap + caption, defaultListItem) == TaskItemOpen + "checked /> " + caption + TaskItemClose
  {
    var item := TaskItem(true, caption);
    assert ParseTaskItem("[x]" + gap + caption) == Some(item) by {
      assert "[x]" == "[" + ['x'] + "]";
      TaskSplitAt('x', gap, caption);
    }
    assert TaskItemHtml(item) == TaskItemOpen + "checked /> " + caption + TaskItemClose by {
      assert "checked" + " /> " == "checked /> ";
    }
  }

  /** A whitespace box renders as an unticked checkbox: the empty `checked`
      leaves two spaces before `/>`. */
  lemma ListItemUnchecked(box: char, gap: string, caption: string, defaultListItem: string -> string)
    requires IsSpace(box) && All(gap, IsSpace) && |caption| >= 1 && All(caption, IsDot) && !IsSpace(caption[0])
    ensures ListItem("[" + [box] + "]" + gap + caption, defaultListItem) == TaskItemOpen + " /> " + caption + TaskItemClose
    ensures TaskItemOpen[|TaskItemOpen| - 1] == ' '
  {
    TaskSplitAt(box, gap, caption);
    assert TaskItemOpen + "" == TaskItemOpen;
  }

  /** An item that does not open with a box goes to the parser's own list
      item renderer. */
  lemma ListItemNoBox(text: string, defaultListItem: string -> string)
    requires |text| < 4 || text[0] != '[' || text[2] != ']' || !(text[1] == 'x' || IsSpace(text[1]))
    ensures ListItem(text, defaultListItem) == defaultListItem(text)
  {
  }

  /** So does a box whose caption runs over a line break: `.` does not cross
      lines and, without the m flag, `$` is the end of the whole text. */
  lemma ListItemMultiline(text: string, i: nat, defaultListItem: string -> string)
    requires 3 <= i < |text| && IsLineTerminator(text[i]) && !All(text[3..i], IsSpace)
    ensures ListItem(text, defaultListItem) == defaultListItem(text)
  {
    forall j: nat ensures !IsTaskSplit(text, j) {
      if 3 <= j < |text| {
        if i < j {
          var m :| 0 <= m < i - 3 && !IsSpace(text[3..i][m]);
          assert text[3..j][m] == text[3..i][m];
        } else {
          assert text[j..][i - j] == text[i];
        }
      }
    }
  }

  /** The timestamp span stays on one line and opens with '<'. */
  lemma TimestampSpanOneLine(timestamp: string)
    requires IsTimestamp(timestamp)
    ensures All(TimestampSpan(timestamp), IsDot) && TimestampSpan(timestamp)[0] == '<'
  {
    assert All(timestamp, IsDot) by {
      assert forall k :: 0 <= k < |timestamp| ==> timestamp[k] in "0123456789- :";
    }
    AllConcat("<span class=\"timestamp\">", timestamp, IsDot);
    AllConcat("<span class=\"timestamp\">" + timestamp, "<span/>", IsDot);
  }

  /** A checked entry split into its bullet, its box, the whitespace that
      follows the box and the rest. */
  lemma CheckedEntryParts(item: string, span: string, g: nat)
    requires g <= |item|
    ensures ("* [x] " + item + span)[..2] == "* "
    ensures ("* [x] " + item + span)[2..] == "[" + ['x'] + "]" + (" " + item[..g]) + (item[g..] + span)
  {
    assert item[..g] + item[g..] == item;
  }

  /** What follows the leading whitespace of an item, up to and including
      a one-line span that does not start with whitespace, is one line that
      does not start with whitespace. */
  lemma CaptionOneLine(item: string, span: string)
    requires All(item, IsDot) && |span| >= 1 && All(span, IsDot) && !IsSpace(span[0])
    ensures var c := item[Run(item, IsSpace)..] + span;
            |c| >= 1 && All(c, IsDot) && !IsSpace(c[0])
  {
    var g := Run(item, IsSpace);
    var caption := item[g..] + span;
    AllSuffix(item, IsDot, 0, g);
    assert item[0..] == item;
    AllConcat(item[g..], span, IsDot);
    if g < |item| {
      assert caption[0] == item[g];
    } else {
      assert caption[0] == span[0];
    }
  }

  /** An entry `* [x] ` + item + span, once the parser hands its text after
      `* ` to the list item hook, is a ticked task item whose caption is the
      item without its leading whitespace, followed by the span. */
  lemma TickedEntry(item: string, span: string)
    requires All(item, IsDot) && |span| >= 1 && All(span, IsDot) && !IsSpace(span[0])
    ensures ("* [x] " + item + span)[..2] == "* "
    ensures ParseTaskItem(("* [x] " + item + span)[2..]) == Some(TaskItem(true, item[Run(item, IsSpace)..] + span))
  {
    var g := Run(item, IsSpace);
    CheckedEntryParts(item, span, g);
    LeadingGap(item);
    CaptionOneLine(item, span);
    TaskSplitAt('x', " " + item[..g], item[g..] + span);
  }

  /** The space after the box and the item's leading whitespace. */
  lemma LeadingGap(item: string)
    ensures All(" " + item[..Run(item, IsSpace)], IsSpace)
  {
    var gap := " " + item[..Run(item, IsSpace)];
    assert forall k :: 1 <= k < |gap| ==> gap[k] == item[..Run(item, IsSpace)][k - 1];
  }

  /** A done entry rewritten by the preprocessor, once the parser hands its
      text after `* ` to the list item hook, is a ticked task item whose
      caption is the entry without its leading whitespace, timestamp span
      included. */
  lemma DoneItemIsTicked(item: string, timestamp: string)
    requires All(item, IsDot) && IsTimestamp(timestamp)
    ensures CheckedItem(item, timestamp)[..2] == "* "
    ensures ParseTaskItem(CheckedItem(item, timestamp)[2..])
            == Some(TaskItem(true, item[Run(item, IsSpace)..] + TimestampSpan(timestamp)))
  {
    TimestampSpanOneLine(timestamp);
    TickedEntry(item, TimestampSpan(timestamp));
  }

  // ---------------------------------------------------------- inline output

  /** The wrapped InlineLexer.prototype.output: the parser's inline output
      sees the source with the underscores of emoji names escaped, and its
      result has them restored. */
  function InlineOutput(src: string, output: string -> string): string {
    UnescapeEmoji(output(EscapeEmoji(src)))
  }

  /** The parser sees the same emoji tokens, with no underscore inside any
      of their names, and every other character as it was. */
  lemma InlineOutputShields(src: string)
    ensures |EscapeEmoji(src)| == |src| && NameMask(EscapeEmoji(src)) == NameMask(src)
    ensures forall i :: 0 <= i < |src| && NameMask(src)[i] ==> EscapeEmoji(src)[i] != '_'
    ensures forall i :: 0 <= i < |src| && !NameMask(src)[i] ==> EscapeEmoji(src)[i] == src[i]
  {
    EscapeEmojiLocal(src);
    EscapeEmojiKeepsTokens(src);
  }

  /** A parser that passes its input through leaves the source unchanged. */
  lemma InlineOutputTransparent(src: string)
    requires forall i :: 0 <= i < |src| && NameMask(src)[i] ==> src[i] != Sentinel
    ensures InlineOutput(src, s => s) == src
  {
    EmojiRoundTrip(src);
  }

  /** Translating a string without `from` changes nothing. */
  lemma TranslateAbsent(s: string, from: char, to: char)
    requires from !in s
    ensures Translate(s, from, to) == s
  {
  }

  /** An image tag split at its colons. Kept apart from the emoji scan so
      that the solver regroups plain strings only. */
  lemma ImageTagParts(n: string)
    ensures ImageTag(n) == "<img alt=\"" + (":" + n + ":" + ("\" src=\"emoji" + (":" + ("//" + n + "\" />"))))
  {
  }

  /** The `://` of the image source starts no token. */
  lemma SourceNoToken(n: string)
    requires All(n, IsNameChar)
    ensures UnescapeEmoji(":" + ("//" + n + "\" />")) == ":" + ("//" + n + "\" />")
  {
    var tail := "//" + n + "\" />";
    assert ':' !in tail by {
      assert forall i :: 2 <= i < 2 + |n| ==> tail[i] == n[i - 2];
    }
    NoColonTokenFree(tail);
    ReplaceEmojiTokenFree(tail, NameTranslator(Sentinel, '_'));
    assert (":" + tail)[1..] == tail;
    assert TokenLen(":" + tail) == 0 by {
      assert (":" + tail)[1..][0] == '/';
    }
  }

  /** An image still names the emoji after unescapeEmoji: the only token in
      it is the alt text, whose name has no sentinel left. */
  lemma ImageSurvivesUnescape(n: string)
    requires |n| >= 1 && All(n, IsNameChar) && Sentinel !in n
    ensures UnescapeEmoji(ImageTag(n)) == ImageTag(n)
  {
    var f := NameTranslator(Sentinel, '_');
    var source := ":" + ("//" + n + "\" />");
    SourceNoToken(n);
    var after := "\" src=\"emoji" + source;
    ReplaceEmojiColonFree("\" src=\"emoji", source, f);
    ReplaceEmojiToken(n, after, f);
    TranslateAbsent(n, Sentinel, '_');
    ReplaceEmojiColonFree("<img alt=\"", ":" + n + ":" + after, f);
    ImageTagParts(n);
  }

  /** An emoji shortcode that reaches the text hook through the wrapped
      inline output keeps the underscores in its name: `:smile_face:` renders
      with alt `:smile_face:` and source `emoji://smile_face`. */
  lemma InlineEmojiKeepsUnderscores(name: string)
    requires |name| >= 1 && All(name, IsNameChar) && Sentinel !in name
    ensures InlineOutput(":" + name + ":", Text) == ImageTag(name)
  {
    var e := EscapeUnderscore(name);
    ReplaceEmojiToken(name, "", NameTranslator('_', Sentinel));
    assert ":" + name + ":" + "" == ":" + name + ":";
    assert EscapeEmoji(":" + name + ":") == ":" + e + ":";
    assert All(e, IsNameChar);
    TextEmoji(e, "");
    UnderscoreRoundTrip(name);
    assert ":" + e + ":" + "" == ":" + e + ":";
    assert Text(":" + e + ":") == ImageTag(name);
    ImageSurvivesUnescape(name);
  }

  // ------------------------------------------------------------------ code

  /** `html.replace(/<pre>/, '<pre class="hljs">')`: the leftmost `<pre>`
      gains the highlighting class; without one the markup is unchanged. */
  function AddHljsClass(html: string): (r: string)
    ensures (forall i :: 0 <= i <= |html| ==> !OccursAt(html, "<pre>", i)) ==> r == html
    ensures forall i: nat :: OccursAt(html, "<pre>", i) && (forall k: nat :: k < i ==> !OccursAt(html, "<pre>", k))
              ==> r == html[..i] + "<pre class=\"hljs\">" + html[i + 5..]
  {
    match FirstOccurrence(html, "<pre>", 0)
    case None => html
    case Some(i) =>
      assert forall i': nat :: OccursAt(html, "<pre>", i') && (forall k: nat :: k < i' ==> !OccursAt(html, "<pre>", k)) ==> i' == i;
      html[..i] + "<pre class=\"hljs\">" + html[i + 5..]
  }

  /** renderer.code: the parser's code block markup with the class added. */
  function Code(code: string, language: string, defaultCode: (string, string) -> string): string {
    AddHljsClass(defaultCode(code, language))
  }

  /** The highlighted tag is the plain one with the class attribute before
      its `>`. Kept apart from the markup so that the solver regroups the
      literals only. */
  lemma HljsTagParts()
    ensures "<pre" + " class=\"hljs\"" + ">" == "<pre class=\"hljs\">"
  {
  }

  /** The class goes inside the first `<pre>` tag, before its `>`. */
  lemma AddHljsClassInserts(html: string, i: nat)
    requires OccursAt(html, "<pre>", i) && forall k: nat :: k < i ==> !OccursAt(html, "<pre>", k)
    ensures AddHljsClass(html) == html[..i + 4] + " class=\"hljs\"" + html[i + 4..]
  {
    var before, after := html[..i], html[i + 5..];
    assert AddHljsClass(html) == before + "<pre class=\"hljs\">" + after;
    assert html[..i + 4] == before + "<pre" by {
      assert html[i..i + 5] == "<pre>";
      assert forall k :: i <= k < i + 4 ==> html[k] == html[i..i + 5][k - i];
    }
    assert html[i + 4..] == ">" + after by {
      assert html[i + 4] == html[i..i + 5][4];
    }
    HljsTagParts();
    assert before + "<pre class=\"hljs\">" + after == before + "<pre" + " class=\"hljs\"" + (">" + after);
  }

  /** Taking the class back out gives the original markup. */
  lemma AddHljsClassInverse(html: string, i: nat)
    requires OccursAt(html, "<pre>", i) && forall k: nat :: k < i ==> !OccursAt(html, "<pre>", k)
    ensures |AddHljsClass(html)| == |html| + 13
    ensures AddHljsClass(html)[..i + 4] + AddHljsClass(html)[i + 17..] == html
  {
    AddHljsClassInserts(html, i);
    var r := AddHljsClass(html);
    assert r[..i + 4] == html[..i + 4];
    assert r[i + 17..] == html[i + 4..];
    assert html[..i + 4] + html[i + 4..] == html;
  }

  /** A code block that starts with `<pre>` starts with the highlighted tag. */
  lemma CodeBlockHighlighted(rest: string, code: string, language: string, defaultCode: (string, string) -> string)
    requires defaultCode(code, language) == "<pre>" + rest
    ensures Code(code, language, defaultCode) == "<pre class=\"hljs\">" + rest
  {
    var html := "<pre>" + rest;
    assert OccursAt(html, "<pre>", 0);
    assert html[5..] == rest;
  }
}
