/**
 * Comment tags and the pure sequence operations the plugin performs on a
 * comment's ordered tag list: filtering out a tag name (the effect of
 * `removeTags`), the single left-to-right sweep that folds a `<name>_i18n`
 * tag into the tag before it (the loop of `onSignature`), and
 * `Array.prototype.find` with a callback that may change the tag it is given.
 */
module Tags {
  import opened Wrappers
  import opened Strings

  /** A documentation tag: `@tagName paramName text`, plus the `text_i18n` field the plugin adds. */
  datatype Tag = Tag(tagName: string, text: string, paramName: string, text_i18n: Option<string>)

  /** The legacy translation tag name, `_i18n`. */
  const LegacyI18nName: string := "_i18n"

  // ---------------------------------------------------------------------
  // Removing every tag with a given name

  /** The tags of `ts` not named `name`, in their original order. */
  function Without(ts: seq<Tag>, name: string): (r: seq<Tag>)
    ensures |r| <= |ts|
    decreases |ts|
  {
    if ts == [] then []
    else if ts[0].tagName == name then Without(ts[1..], name)
    else [ts[0]] + Without(ts[1..], name)
  }

  /** The tags kept are exactly the tags of `ts` whose name is not `name`. */
  lemma {:induction false} WithoutMembers(ts: seq<Tag>, name: string)
    ensures forall t :: t in Without(ts, name) <==> t in ts && t.tagName != name
    decreases |ts|
  {
    if ts != [] {
      WithoutMembers(ts[1..], name);
      assert ts == [ts[0]] + ts[1..];
    }
  }

  /** The number of tags of `ts` named `name`. */
  function Count(ts: seq<Tag>, name: string): (n: nat)
    decreases |ts|
  {
    if ts == [] then 0
    else (if ts[0].tagName == name then 1 else 0) + Count(ts[1..], name)
  }

  /** Every tag carries the name exactly when all of them are counted. */
  lemma {:induction false} AllNamedIffCount(ts: seq<Tag>, name: string)
    ensures Count(ts, name) == |ts| <==> forall k :: 0 <= k < |ts| ==> ts[k].tagName == name
    decreases |ts|
  {
    if ts != [] {
      AllNamedIffCount(ts[1..], name);
      assert Count(ts[1..], name) <= |ts[1..]| by { CountBound(ts[1..], name); }
      if forall k :: 0 <= k < |ts[1..]| ==> ts[1..][k].tagName == name {
        forall k | 0 <= k < |ts| ensures ts[k].tagName == name || k == 0 {
          if k > 0 { assert ts[k] == ts[1..][k - 1]; }
        }
      }
    }
  }

  /** At most every tag is counted. */
  lemma {:induction false} CountBound(ts: seq<Tag>, name: string)
    ensures Count(ts, name) <= |ts|
    decreases |ts|
  {
    if ts != [] {
      CountBound(ts[1..], name);
    }
  }

  /** No tag of `ts` is named `name`. */
  predicate NoneNamed(ts: seq<Tag>, name: string)
  {
    forall k :: 0 <= k < |ts| ==> ts[k].tagName != name
  }

  /** Filtering distributes over concatenation, which is what keeps the relative order. */
  lemma {:induction false} WithoutAppend(a: seq<Tag>, b: seq<Tag>, name: string)
    ensures Without(a + b, name) == Without(a, name) + Without(b, name)
    decreases |a|
  {
    if a == [] {
      assert a + b == b;
    } else {
      assert (a + b)[1..] == a[1..] + b;
      WithoutAppend(a[1..], b, name);
    }
  }

  /** Deleting one tag named `name` (a `splice(i, 1)`) does not change the filtered list. */
  lemma {:induction false} WithoutSplice(ts: seq<Tag>, i: nat, name: string)
    requires i < |ts| && ts[i].tagName == name
    ensures Without(ts[..i] + ts[i + 1..], name) == Without(ts, name)
  {
    assert ts == ts[..i] + ([ts[i]] + ts[i + 1..]);
    WithoutAppend(ts[..i], [ts[i]] + ts[i + 1..], name);
    WithoutAppend(ts[..i], ts[i + 1..], name);
  }

  /** The filter drops exactly the tags named `name`. */
  lemma {:induction false} WithoutLength(ts: seq<Tag>, name: string)
    ensures |Without(ts, name)| == |ts| - Count(ts, name)
    decreases |ts|
  {
    if ts != [] {
      WithoutLength(ts[1..], name);
    }
  }

  /** The filter leaves a list unchanged exactly when no tag in it carries the name. */
  lemma {:induction false} WithoutUnchangedIff(ts: seq<Tag>, name: string)
    ensures Without(ts, name) == ts <==> NoneNamed(ts, name)
    decreases |ts|
  {
    if ts != [] {
      WithoutUnchangedIff(ts[1..], name);
      if ts[0].tagName == name {
        assert |Without(ts, name)| < |ts|;
      } else {
        assert NoneNamed(ts, name) <==> NoneNamed(ts[1..], name) by {
          if NoneNamed(ts[1..], name) {
            forall k | 0 <= k < |ts| ensures ts[k].tagName != name {
              if k > 0 { assert ts[k] == ts[1..][k - 1]; }
            }
          }
        }
      }
    }
  }

  /** No tag named `name` survives the filter, so filtering again changes nothing. */
  lemma {:induction false} WithoutIdempotent(ts: seq<Tag>, name: string)
    ensures NoneNamed(Without(ts, name), name)
    ensures Without(Without(ts, name), name) == Without(ts, name)
  {
    var r := Without(ts, name);
    WithoutMembers(ts, name);
    assert forall k :: 0 <= k < |r| ==> r[k] in r;
    WithoutUnchangedIff(r, name);
  }

  // ---------------------------------------------------------------------
  // The adjacent-pair reconciler

  /** `b` is the translation companion of `a`: its name is `a`'s name followed by `_i18n`. */
  predicate IsCompanion(a: Tag, b: Tag)
  {
    a.tagName + "_i18n" == b.tagName
  }

  /**
   * `a` with the translated text of its companion `b`: `b`'s text with the
   * first occurrence of `a`'s parameter name removed, then trimmed.
   */
  function Merge(a: Tag, b: Tag): (m: Tag)
    ensures m.tagName == a.tagName && m.text == a.text && m.paramName == a.paramName
    ensures m.text_i18n.Some?
  {
    a.(text_i18n := Some(Strip(ReplaceFirst(b.text, a.paramName, ""), JsWhitespace)))
  }

  /**
   * The translated text a merge stores is the companion's text with the
   * parameter name removed, cut down to one contiguous slice by dropping
   * only whitespace on either side, and has no whitespace at either end.
   */
  lemma MergeTrimmed(a: Tag, b: Tag)
    ensures var t := Merge(a, b).text_i18n.value;
      var u := ReplaceFirst(b.text, a.paramName, "");
      (t == [] || (t[0] !in JsWhitespace && t[|t| - 1] !in JsWhitespace)) &&
      exists i: nat :: TrimmedAt(u, JsWhitespace, i, t)
  {
    var u := ReplaceFirst(b.text, a.paramName, "");
    StripEnds(u, JsWhitespace);
    StripIsSlice(u, JsWhitespace);
  }

  /**
   * The tag list after one left-to-right sweep: a tag followed by its
   * companion absorbs it and the sweep continues after the pair, so a merged
   * tag is never compared with its new neighbour.
   */
  function Reconcile(ts: seq<Tag>): (r: seq<Tag>)
    decreases |ts|
  {
    if |ts| < 2 then ts
    else if IsCompanion(ts[0], ts[1]) then [Merge(ts[0], ts[1])] + Reconcile(ts[2..])
    else [ts[0]] + Reconcile(ts[1..])
  }

  /** The number of merges the sweep performs. */
  function Merges(ts: seq<Tag>): (n: nat)
    decreases |ts|
  {
    if |ts| < 2 then 0
    else if IsCompanion(ts[0], ts[1]) then 1 + Merges(ts[2..])
    else Merges(ts[1..])
  }

  /** Some tag of `ts` is directly followed by its companion. */
  predicate HasCompanionPair(ts: seq<Tag>)
  {
    exists k :: 0 <= k < |ts| - 1 && IsCompanion(ts[k], ts[k + 1])
  }

  /** Each merge removes exactly one tag. */
  lemma {:induction false} ReconcileLength(ts: seq<Tag>)
    ensures |Reconcile(ts)| == |ts| - Merges(ts)
    decreases |ts|
  {
    if |ts| >= 2 {
      if IsCompanion(ts[0], ts[1]) {
        ReconcileLength(ts[2..]);
      } else {
        ReconcileLength(ts[1..]);
      }
    }
  }

  /** The sweep merges nothing exactly when no tag is directly followed by its companion. */
  lemma {:induction false} MergesZeroIff(ts: seq<Tag>)
    ensures Merges(ts) == 0 <==> !HasCompanionPair(ts)
    decreases |ts|
  {
    if |ts| >= 2 {
      if IsCompanion(ts[0], ts[1]) {
        assert HasCompanionPair(ts) by { assert IsCompanion(ts[0], ts[1]); }
      } else {
        var tail := ts[1..];
        MergesZeroIff(tail);
        if HasCompanionPair(ts) {
          var k :| 0 <= k < |ts| - 1 && IsCompanion(ts[k], ts[k + 1]);
          assert k > 0;
          assert IsCompanion(tail[k - 1], tail[k]);
        }
        if HasCompanionPair(tail) {
          var k :| 0 <= k < |tail| - 1 && IsCompanion(tail[k], tail[k + 1]);
          assert IsCompanion(ts[k + 1], ts[k + 2]);
        }
      }
    }
  }

  /** Tags without a name/name_i18n pair are not merged into one another: the list comes back unchanged; otherwise it changes. */
  lemma {:induction false} ReconcileUnchangedIff(ts: seq<Tag>)
    ensures Reconcile(ts) == ts <==> !HasCompanionPair(ts)
    decreases |ts|
  {
    ReconcileLength(ts);
    MergesZeroIff(ts);
    if !HasCompanionPair(ts) {
      ReconcileNoMerge(ts);
    }
  }

  /** With no merge to do, every tag passes through. */
  lemma {:induction false} ReconcileNoMerge(ts: seq<Tag>)
    requires Merges(ts) == 0
    ensures Reconcile(ts) == ts
    decreases |ts|
  {
    if |ts| >= 2 {
      ReconcileNoMerge(ts[1..]);
      assert ts == [ts[0]] + ts[1..];
    }
  }

  /**
   * The sweep is not repeated: after `x` absorbs the first `x_i18n`, the
   * second `x_i18n` stays in the list.
   */
  lemma {:induction false} ReconcileSingleSweep(x: Tag, c1: Tag, c2: Tag)
    requires IsCompanion(x, c1) && IsCompanion(x, c2)
    ensures Reconcile([x, c1, c2]) == [Merge(x, c1), c2]
  {
    assert [x, c1, c2][2..] == [c2];
  }

  /**
   * The merge step of the sweep: a list that starts with a tag and its
   * companion reconciles to the merged tag followed by the reconciled rest,
   * so the companion is removed and the merged tag is not looked at again.
   */
  lemma {:induction false} ReconcilePairHead(rest: seq<Tag>)
    requires |rest| >= 2 && IsCompanion(rest[0], rest[1])
    ensures Reconcile(rest) == [Merge(rest[0], rest[1])] + Reconcile(rest[2..])
  {
  }

  /** The skip step of the sweep: a head not followed by its companion is kept as it is. */
  lemma {:induction false} ReconcileSkipHead(rest: seq<Tag>)
    requires |rest| >= 2 && !IsCompanion(rest[0], rest[1])
    ensures Reconcile(rest) == [rest[0]] + Reconcile(rest[1..])
  {
  }

  /** Concatenation regroups; stated on its own so that callers need not unfold `Reconcile`. */
  lemma Regroup<T>(a: seq<T>, b: seq<T>, c: seq<T>)
    ensures (a + b) + c == a + (b + c)
  {
  }

  /** With at most one tag left, the sweep is over: the rest is kept as it is. */
  lemma {:induction false} ReconcileShort(rest: seq<Tag>)
    requires |rest| < 2
    ensures Reconcile(rest) == rest
  {
  }

  // ---------------------------------------------------------------------
  // Array.prototype.find with a callback

  /** What a `find` callback does to a tag: the tag afterwards, and whether the callback's value was truthy. */
  datatype Probe = Probe(tag: Tag, hit: bool)

  /** What `find` leaves behind: the list (as changed by the callback) and the tag it returned, if any. */
  datatype Found = Found(tags: seq<Tag>, tag: Option<Tag>)

  /**
   * `tags.find(callback)`: the callback is applied to the tags in order until
   * one yields a truthy value; that tag (as left by the callback) is returned.
   */
  function FindWith(ts: seq<Tag>, probe: Tag -> Probe): (f: Found)
    ensures |f.tags| == |ts|
    decreases |ts|
  {
    if ts == [] then Found([], None)
    else
      var p := probe(ts[0]);
      if p.hit then Found([p.tag] + ts[1..], Some(p.tag))
      else
        var rest := FindWith(ts[1..], probe);
        Found([p.tag] + rest.tags, rest.tag)
  }

  /** The callback written at line 92, `(x) => (x.tagName = '_i18n')`: it assigns, and its value is the non-empty, hence truthy, string. */
  function AssignI18nName(x: Tag): (p: Probe)
  {
    Probe(x.(tagName := LegacyI18nName), LegacyI18nName != "")
  }

  /** The evidently intended callback, `(x) => x.tagName === '_i18n'`. */
  function MatchI18nName(x: Tag): (p: Probe)
  {
    Probe(x, x.tagName == LegacyI18nName)
  }

  /**
   * As written, `find` stops at the first tag whatever its name, renames it
   * to `_i18n` and returns it; only an empty list yields nothing.
   */
  lemma {:induction false} FindAsWrittenTakesFirst(ts: seq<Tag>)
    ensures var f := FindWith(ts, AssignI18nName);
      (ts == [] ==> f == Found([], None)) &&
      (ts != [] ==> f.tag == Some(ts[0].(tagName := LegacyI18nName)) &&
                    f.tags == [ts[0].(tagName := LegacyI18nName)] + ts[1..])
  {
  }

  /** A non-empty list carries no tag with the name iff neither its head nor its tail does. */
  lemma {:induction false} NoneNamedCons(ts: seq<Tag>, name: string)
    requires ts != []
    ensures NoneNamed(ts, name) <==> ts[0].tagName != name && NoneNamed(ts[1..], name)
  {
    if ts[0].tagName != name && NoneNamed(ts[1..], name) {
      forall k | 0 <= k < |ts| ensures ts[k].tagName != name {
        if k > 0 { assert ts[k] == ts[1..][k - 1]; }
      }
    }
  }

  /** With the comparison, `find` changes no tag, and finds nothing iff no tag is named `_i18n`. */
  lemma {:induction false} FindMatchingKeeps(ts: seq<Tag>)
    ensures var f := FindWith(ts, MatchI18nName);
      f.tags == ts && (f.tag.None? <==> NoneNamed(ts, LegacyI18nName))
    decreases |ts|
  {
    if ts != [] {
      FindMatchingKeeps(ts[1..]);
      NoneNamedCons(ts, LegacyI18nName);
      assert ts == [ts[0]] + ts[1..];
    }
  }

  /** With the comparison, what `find` returns is a tag of the list named `_i18n`, with no such tag before it. */
  lemma {:induction false} FindMatchingIsFirst(ts: seq<Tag>)
    ensures var f := FindWith(ts, MatchI18nName);
      f.tag.Some? ==> exists k :: 0 <= k < |ts| && ts[k] == f.tag.value &&
                        f.tag.value.tagName == LegacyI18nName && NoneNamed(ts[..k], LegacyI18nName)
    decreases |ts|
  {
    if ts != [] && ts[0].tagName != LegacyI18nName {
      var tail := ts[1..];
      FindMatchingIsFirst(tail);
      var f := FindWith(tail, MatchI18nName);
      if f.tag.Some? {
        var k :| 0 <= k < |tail| && tail[k] == f.tag.value && NoneNamed(tail[..k], LegacyI18nName);
        var before := ts[..k + 1];
        assert before != [] && before[0] == ts[0] && before[1..] == tail[..k];
        NoneNamedCons(before, LegacyI18nName);
        assert ts[k + 1] == f.tag.value;
      }
    } else if ts != [] {
      assert NoneNamed(ts[..0], LegacyI18nName);
    }
  }

  /**
   * With the comparison, `find` changes no tag and returns the first tag
   * named `_i18n`, or nothing when there is none.
   */
  lemma {:induction false} FindMatchingFirst(ts: seq<Tag>)
    ensures var f := FindWith(ts, MatchI18nName);
      f.tags == ts &&
      (f.tag.None? <==> NoneNamed(ts, LegacyI18nName)) &&
      (f.tag.Some? ==> exists k :: 0 <= k < |ts| && ts[k] == f.tag.value &&
                         f.tag.value.tagName == LegacyI18nName && NoneNamed(ts[..k], LegacyI18nName))
  {
    FindMatchingKeeps(ts);
    FindMatchingIsFirst(ts);
  }
}
