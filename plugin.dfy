/**
 * The comment-rewriting callbacks of the `deno` converter plugin
 * (typedoc-plugin-deno.ts): the handlers run when a declaration or a
 * signature reflection is created, and the two helpers `removeTags` and
 * `isEmptyComment`. Comments and reflections are objects the handlers update
 * in place; each handler is proved against a function of the state it starts
 * from, and the properties the plugin relies on are lemmas about those
 * functions.
 */
module DenoPlugin {
  import opened Wrappers
  import opened Strings
  import opened Tags

  /** The fields of a comment the plugin reads or writes, as one value. */
  datatype CommentState = CommentState(
    text: string,
    shortText: string,
    tags: Option<seq<Tag>>,
    shortText_i18n: Option<string>,
    text_i18n: Option<string>)
  {
    /** Blank text and short text, and no tags (absent or an empty list). */
    predicate IsEmpty()
    {
      text == "" && shortText == "" && (tags.None? || |tags.value| == 0)
    }
  }

  /** A documentation comment, as `Comment & I18nComment`. */
  class Comment {
    var text: string
    var shortText: string
    var tags: Option<seq<Tag>>
    var shortText_i18n: Option<string>
    var text_i18n: Option<string>

    constructor (text: string, shortText: string, tags: Option<seq<Tag>>)
      ensures State() == CommentState(text, shortText, tags, None, None)
    {
      this.text := text;
      this.shortText := shortText;
      this.tags := tags;
      this.shortText_i18n := None;
      this.text_i18n := None;
    }

    /** The current value of the comment's fields. */
    function State(): CommentState
      reads this
    {
      CommentState(text, shortText, tags, shortText_i18n, text_i18n)
    }
  }

  /** A reflection of the documentation tree; only its optional comment matters here. */
  class Reflection {
    var comment: Comment?

    constructor (comment: Comment?)
      ensures this.comment == comment
    {
      this.comment := comment;
    }
  }

  /** What `onSignature` ends with: it returns, or it throws when the comment it reads at line 63 is gone. */
  datatype SignatureOutcome = Completed | MissingComment

  // ---------------------------------------------------------------------
  // isEmptyComment

  /** `isEmptyComment`: no comment at all, or one with nothing in it. */
  predicate IsEmptyComment(c: Comment?)
    reads c
  {
    c == null || c.State().IsEmpty()
  }

  /**
   * The emptiness test as line 108 applies it, right after every tag named
   * `name` has been removed: the comment is empty exactly when its text and
   * short text are blank and every one of its tags carried that name.
   */
  lemma EmptyAfterRemoval(st: CommentState, ts: seq<Tag>, name: string)
    ensures st.(tags := Some(Without(ts, name))).IsEmpty() <==>
      st.text == "" && st.shortText == "" && forall k :: 0 <= k < |ts| ==> ts[k].tagName == name
  {
    WithoutLength(ts, name);
    AllNamedIffCount(ts, name);
  }

  // ---------------------------------------------------------------------
  // removeTags

  /** `removeTags`: deletes, in place, every tag named `tagName`; the other tags keep their order. */
  method RemoveTags(comment: Comment?, tagName: string)
    modifies comment
    ensures comment != null && old(comment.tags).None? ==> comment.State() == old(comment.State())
    ensures comment != null && old(comment.tags).Some? ==>
      comment.State() == old(comment.State()).(tags := Some(Without(old(comment.tags.value), tagName)))
  {
    if comment == null || comment.tags.None? {
      return;
    }
    ghost var original := comment.tags.value;
    var i, c := 0, |comment.tags.value|;
    while i < c
      invariant comment.tags.Some? && c == |comment.tags.value| && 0 <= i <= c
      invariant Without(comment.tags.value, tagName) == Without(original, tagName)
      invariant forall k :: 0 <= k < i ==> comment.tags.value[k].tagName != tagName
      invariant comment.State() == old(comment.State()).(tags := comment.tags)
      decreases c - i
    {
      var ts := comment.tags.value;
      if ts[i].tagName == tagName {
        WithoutSplice(ts, i, tagName);
        comment.tags := Some(ts[..i] + ts[i + 1..]);
        c := c - 1;
      } else {
        i := i + 1;
      }
    }
    WithoutUnchangedIff(comment.tags.value, tagName);
  }

  // ---------------------------------------------------------------------
  // onDeclaration

  /** The state a comment is left in by the declaration handler, and whether the comment is detached. */
  datatype Declared = Declared(state: CommentState, detached: bool)

  /**
   * Lines 96-107 on a comment's state, once the tag `tag` has been found:
   * the tag's trimmed text cut at its first line feed becomes the two
   * translation fields, and every `_i18n` tag is removed.
   */
  function Translated(st: CommentState, tag: Tag): (t: CommentState)
    requires st.tags.Some?
  {
    var parts := SplitFirstLine(Strip(tag.text, NewLine));
    st.(shortText_i18n := Some(parts.0), text_i18n := Some(parts.1),
        tags := Some(Without(st.tags.value, LegacyI18nName)))
  }

  /**
   * The declaration handler on a comment's state, with the `find` callback
   * as a parameter: `AssignI18nName` is the code as written, `MatchI18nName`
   * the comparison it evidently means.
   */
  function DeclarationEffect(s: CommentState, probe: Tag -> Probe): (d: Declared)
  {
    var trimmed := s.(text := Strip(s.text, NewLine));
    if trimmed.tags.None? then Declared(trimmed, false)
    else
      var found := FindWith(trimmed.tags.value, probe);
      var searched := trimmed.(tags := Some(found.tags));
      if found.tag.None? then Declared(searched, false)
      else
        var rewritten := Translated(searched, found.tag.value);
        Declared(rewritten, rewritten.IsEmpty())
  }

  /**
   * `onDeclaration`, as written: trims line feeds off the text, takes the tag
   * the line-92 `find` returns (the first tag, renamed to `_i18n`), splits its
   * text at the first line feed into the two translation fields, removes all
   * `_i18n` tags and detaches the comment when nothing is left in it.
   */
  method OnDeclaration(r: Reflection)
    modifies r, r.comment
    ensures old(r.comment) == null ==> r.comment == null
    ensures old(r.comment) != null ==>
      var d := DeclarationEffect(old(r.comment.State()), AssignI18nName);
      old(r.comment).State() == d.state &&
      r.comment == (if d.detached then null else old(r.comment))
  {
    if r.comment == null {
      return;
    }
    var comment := r.comment;
    ghost var start := comment.State();
    comment.text := Strip(comment.text, NewLine);
    if comment.tags.None? {
      return;
    }
    var found := FindWith(comment.tags.value, AssignI18nName);
    comment.tags := Some(found.tags);
    if found.tag.None? {
      return;
    }
    ghost var searched := comment.State();
    var i18n := Strip(found.tag.value.text, NewLine);
    var firstLF := IndexOf(i18n, "\n");
    if firstLF == -1 {
      comment.shortText_i18n := Some(i18n);
      comment.text_i18n := Some("");
    } else {
      comment.shortText_i18n := Some(i18n[..firstLF]);
      comment.text_i18n := Some(i18n[firstLF + 1..]);
    }
    assert (comment.shortText_i18n.value, comment.text_i18n.value) == SplitFirstLine(i18n);
    RemoveTags(comment, LegacyI18nName);
    assert comment.State() == Translated(searched, found.tag.value);
    if IsEmptyComment(comment) {
      r.comment := null;
    }
  }

  // ---------------------------------------------------------------------
  // onSignature

  /**
   * The sweep of `onSignature` (lines 63-74): walks the tag list once with an
   * index and a length, and when a tag is directly followed by its
   * `<name>_i18n` companion, stores the companion's text in the tag and
   * splices the companion out; the index advances either way.
   */
  method MergeCompanionTags(comment: Comment)
    modifies comment
    ensures old(comment.tags).None? ==> comment.State() == old(comment.State())
    ensures old(comment.tags).Some? ==>
      comment.State() == old(comment.State()).(tags := Some(Reconcile(old(comment.tags.value))))
  {
    if comment.tags.None? {
      return;
    }
    ghost var original := comment.tags.value;
    ghost var done: seq<Tag>, rest := [], original;
    var i, c := 0, |comment.tags.value|;
    while i < c - 1
      invariant comment.tags.Some? && c == |comment.tags.value| && 0 <= i <= c
      invariant comment.tags.value == done + rest && |done| == i
      invariant done + Reconcile(rest) == Reconcile(original)
      invariant comment.State() == old(comment.State()).(tags := comment.tags)
      decreases c - i
    {
      var ts := comment.tags.value;
      assert rest[0] == ts[i] && rest[1] == ts[i + 1] && ts[..i] == done;
      if ts[i].tagName + "_i18n" == ts[i + 1].tagName {
        var m := Merge(ts[i], ts[i + 1]);
        ReconcilePairHead(rest);
        var merged := ts[i := m];
        comment.tags := Some(merged);
        comment.tags := Some(merged[..i + 1] + merged[i + 2..]);
        assert merged[..i + 1] == done + [m] && merged[i + 2..] == rest[2..];
        Regroup(done, [m], Reconcile(rest[2..]));
        c := c - 1;
        done, rest := done + [m], rest[2..];
      } else {
        ReconcileSkipHead(rest);
        assert [rest[0]] + rest[1..] == rest;
        Regroup(done, [rest[0]], rest[1..]);
        Regroup(done, [rest[0]], Reconcile(rest[1..]));
        done, rest := done + [rest[0]], rest[1..];
      }
      i := i + 1;
    }
    ReconcileShort(rest);
  }

  /**
   * `onSignature`: runs the declaration handler, then the companion-tag
   * sweep. When the declaration handler has detached the comment, reading
   * its tags at line 63 fails.
   */
  method OnSignature(r: Reflection) returns (outcome: SignatureOutcome)
    modifies r, r.comment
    ensures old(r.comment) == null ==> outcome == Completed && r.comment == null
    ensures old(r.comment) != null ==>
      var d := DeclarationEffect(old(r.comment.State()), AssignI18nName);
      (outcome == MissingComment <==> d.detached) &&
      r.comment == (if d.detached then null else old(r.comment)) &&
      old(r.comment).State() ==
        (if d.detached || d.state.tags.None? then d.state
         else d.state.(tags := Some(Reconcile(d.state.tags.value))))
  {
    if r.comment == null {
      return Completed;
    }
    var comment := r.comment;
    OnDeclaration(r);
    if r.comment == null {
      return MissingComment;
    }
    MergeCompanionTags(comment);
    return Completed;
  }

  // ---------------------------------------------------------------------
  // Properties of the declaration handler

  /**
   * Whatever the callback, the text ends up with no line feed at either end,
   * inside of it unchanged, and the short text is untouched.
   */
  lemma DeclarationTrimsText(s: CommentState, probe: Tag -> Probe)
    ensures var t := DeclarationEffect(s, probe).state.text;
      t == Strip(s.text, NewLine) && (t == [] || (t[0] != '\n' && t[|t| - 1] != '\n'))
    ensures DeclarationEffect(s, probe).state.shortText == s.shortText
  {
    StripEnds(s.text, NewLine);
  }

  /** Without a tag list, or with an empty one, only the text changes and the comment stays attached. */
  lemma DeclarationWithoutTags(s: CommentState, probe: Tag -> Probe)
    requires s.tags.None? || s.tags == Some([])
    ensures DeclarationEffect(s, probe) == Declared(s.(text := Strip(s.text, NewLine)), false)
  {
    if s.tags.Some? {
      assert FindWith([], probe) == Found([], None);
    }
  }

  /**
   * Whenever a translation tag is found, no `_i18n` tag remains, the short
   * translation is a single line, and the two translation fields are the
   * trimmed tag text cut at its first line feed.
   */
  lemma DeclarationSplitsTranslation(s: CommentState, probe: Tag -> Probe)
    requires s.tags.Some?
    requires FindWith(s.tags.value, probe).tag.Some?
    ensures var d := DeclarationEffect(s, probe);
      var i18n := Strip(FindWith(s.tags.value, probe).tag.value.text, NewLine);
      d.state.shortText_i18n.Some? && d.state.text_i18n.Some? &&
      '\n' !in d.state.shortText_i18n.value &&
      ('\n' !in i18n ==> d.state.shortText_i18n.value == i18n && d.state.text_i18n.value == "") &&
      ('\n' in i18n ==> d.state.shortText_i18n.value + "\n" + d.state.text_i18n.value == i18n) &&
      d.state.tags.Some? && NoneNamed(d.state.tags.value, LegacyI18nName) &&
      (d.detached <==> d.state.IsEmpty())
  {
    WithoutIdempotent(FindWith(s.tags.value, probe).tags, LegacyI18nName);
  }

  /**
   * As written, a non-empty tag list always yields a translation: that of
   * the first tag, whatever its name; the first tag and every other `_i18n`
   * tag are removed, and the rest keep their order.
   */
  lemma DeclarationAsWritten(s: CommentState)
    requires s.tags.Some? && |s.tags.value| > 0
    ensures var ts := s.tags.value;
      var d := DeclarationEffect(s, AssignI18nName);
      var parts := SplitFirstLine(Strip(ts[0].text, NewLine));
      d.state == s.(text := Strip(s.text, NewLine), shortText_i18n := Some(parts.0),
                    text_i18n := Some(parts.1), tags := Some(Without(ts[1..], LegacyI18nName))) &&
      (d.detached <==> d.state.IsEmpty())
  {
    var ts := s.tags.value;
    var renamed := ts[0].(tagName := LegacyI18nName);
    FindAsWrittenTakesFirst(ts);
    WithoutAppend([renamed], ts[1..], LegacyI18nName);
  }

  /**
   * As written, the comment is detached exactly when it has tags, its text is
   * only line feeds, its short text is empty and every tag after the first is
   * an `_i18n` tag.
   */
  lemma DeclarationDetachesIff(s: CommentState)
    ensures DeclarationEffect(s, AssignI18nName).detached <==>
      s.tags.Some? && |s.tags.value| > 0 &&
      Strip(s.text, NewLine) == "" && s.shortText == "" &&
      forall k :: 1 <= k < |s.tags.value| ==> s.tags.value[k].tagName == LegacyI18nName
  {
    if s.tags.Some? && |s.tags.value| > 0 {
      var ts := s.tags.value;
      var rest := ts[1..];
      DeclarationAsWritten(s);
      WithoutLength(rest, LegacyI18nName);
      AllNamedIffCount(rest, LegacyI18nName);
      assert (forall k :: 1 <= k < |ts| ==> ts[k].tagName == LegacyI18nName) <==>
             (forall k :: 0 <= k < |rest| ==> rest[k].tagName == LegacyI18nName) by {
        forall k | 0 <= k < |rest| ensures rest[k] == ts[k + 1] { }
      }
    } else {
      DeclarationWithoutTags(s, AssignI18nName);
    }
  }

  /**
   * With the comparison the code means, a comment without any `_i18n` tag is
   * passed through: only its text is trimmed, its tags are not touched and it
   * stays attached.
   */
  lemma DeclarationMatchingPassesThrough(s: CommentState)
    requires s.tags.None? || NoneNamed(s.tags.value, LegacyI18nName)
    ensures DeclarationEffect(s, MatchI18nName) == Declared(s.(text := Strip(s.text, NewLine)), false)
  {
    if s.tags.Some? {
      FindMatchingFirst(s.tags.value);
    }
  }

  /**
   * The discrepancy at line 92: on a comment whose only tag is an ordinary
   * one (say `@returns the sum`), the code as written takes that tag's text
   * as the translation and deletes the tag, while the comparison leaves the
   * tags alone and sets no translation.
   */
  lemma AsWrittenConsumesOrdinaryTag(s: CommentState, t: Tag)
    requires s.tags == Some([t]) && t.tagName != LegacyI18nName
    ensures var d := DeclarationEffect(s, AssignI18nName);
      d.state.tags == Some([]) &&
      d.state.shortText_i18n == Some(SplitFirstLine(Strip(t.text, NewLine)).0)
    ensures DeclarationEffect(s, MatchI18nName).state == s.(text := Strip(s.text, NewLine))
  {
    assert [t][1..] == [];
    DeclarationAsWritten(s);
    assert NoneNamed([t], LegacyI18nName);
    DeclarationMatchingPassesThrough(s);
  }

  /**
   * On a signature whose comment holds nothing but one ordinary tag, the
   * declaration handler detaches the comment, so the signature handler then
   * fails reading its tags.
   */
  lemma SignatureOnLoneTagFails(t: Tag)
    ensures DeclarationEffect(CommentState("", "", Some([t]), None, None), AssignI18nName).detached
  {
    DeclarationDetachesIff(CommentState("", "", Some([t]), None, None));
  }
}
