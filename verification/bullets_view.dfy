/** The card view of resume bullets: the run-time type checks on a decoded
    reply, the decision whether the card view applies at all, and the text
    its "copy all" button places on the clipboard. */
module BulletsView {
  import opened Wrappers
  import opened Text
  import opened Json
  import Draft

  /** `typeof v === "object" && v !== null`: objects and arrays. */
  predicate IsObject(v: Json) {
    v.JObj? || v.JArr?
  }

  /** An array whose every element is a string (vacuously the empty one). */
  predicate IsStringArray(v: Json) {
    v.JArr? && forall i :: 0 <= i < |v.items| ==> v.items[i].JStr?
  }

  /** An array whose every element is a number. */
  predicate IsNumberArray(v: Json) {
    v.JArr? && forall i :: 0 <= i < |v.items| ==> v.items[i].JNum?
  }

  /** Both array checks accept the empty array and reject an array with an
      element of the wrong type. */
  lemma ArrayChecks(v: Json, i: nat)
    ensures IsStringArray(JArr([])) && IsNumberArray(JArr([]))
    ensures v.JArr? && i < |v.items| && !v.items[i].JStr? ==> !IsStringArray(v)
    ensures v.JArr? && i < |v.items| && !v.items[i].JNum? ==> !IsNumberArray(v)
  {
  }

  /** An optional member is absent (`undefined`) or satisfies its check.
      A member present with value `null` is not absent. */
  predicate AbsentOr(v: Option<Json>, ok: Json -> bool) {
    v.None? || ok(v.value)
  }

  /** `isV2Bullet`: a string `text`, and every optional member that is
      present has its declared type. */
  predicate IsV2Bullet(v: Json) {
    && IsObject(v)
    && IsStr(Get(v, "text"))
    && AbsentOr(Get(v, "job_chunks"), IsNumberArray)
    && AbsentOr(Get(v, "evidence"), (x: Json) => x.JStr?)
    && AbsentOr(Get(v, "keywords"), IsStringArray)
    && AbsentOr(Get(v, "rationale"), (x: Json) => x.JStr?)
    && AbsentOr(Get(v, "transferable"), (x: Json) => x.JBool?)
  }

  /** The hint that a list is in the v2 shape: an object carrying any of the
      members beyond `text` and `job_chunks`, whatever their values. */
  predicate HasV2Hint(b: Json) {
    IsObject(b) && (HasKey(b, "evidence") || HasKey(b, "keywords") || HasKey(b, "rationale") || HasKey(b, "transferable"))
  }

  /** `bulletsUnknown.filter(isV2Bullet)`. */
  function ValidBullets(items: seq<Json>): (r: seq<Json>)
    ensures |r| <= |items|
    ensures forall i :: 0 <= i < |r| ==> IsV2Bullet(r[i])
    decreases |items|
  {
    if |items| == 0 then []
    else (if IsV2Bullet(items[0]) then [items[0]] else []) + ValidBullets(items[1..])
  }

  /** The filter keeps exactly the valid elements. */
  lemma {:induction false} ValidBulletsMembers(items: seq<Json>, x: Json)
    ensures x in ValidBullets(items) <==> x in items && IsV2Bullet(x)
    decreases |items|
  {
    if |items| > 0 {
      ValidBulletsMembers(items[1..], x);
      assert items == [items[0]] + items[1..];
    }
  }

  /** The filter keeps the original order: it distributes over
      concatenation. */
  lemma {:induction false} ValidBulletsAppend(a: seq<Json>, b: seq<Json>)
    ensures ValidBullets(a + b) == ValidBullets(a) + ValidBullets(b)
    decreases |a|
  {
    if |a| == 0 {
      assert a + b == b;
    } else {
      assert (a + b)[1..] == a[1..] + b;
      ValidBulletsAppend(a[1..], b);
    }
  }

  /** The bullets the card view renders, or None when the caller has to
      fall back to plain text. */
  function View(data: Json): (r: Option<seq<Json>>)
    ensures r.Some? <==>
      && IsObject(data) && IsArr(Get(data, "bullets"))
      && (exists i :: 0 <= i < |Get(data, "bullets").value.items| && HasV2Hint(Get(data, "bullets").value.items[i]))
      && |ValidBullets(Get(data, "bullets").value.items)| > 0
    ensures r.Some? ==> |r.value| > 0 && forall x :: x in r.value <==> x in Get(data, "bullets").value.items && IsV2Bullet(x)
    ensures r.Some? ==> r.value == ValidBullets(Get(data, "bullets").value.items)
  {
    if !IsObject(data) || !IsArr(Get(data, "bullets")) then None
    else
      var items := Get(data, "bullets").value.items;
      if !(exists i :: 0 <= i < |items| && HasV2Hint(items[i])) then None
      else
        var bullets := ValidBullets(items);
        if |bullets| == 0 then None
        else
          assert forall x :: x in bullets <==> x in items && IsV2Bullet(x) by {
            forall x ensures x in bullets <==> x in items && IsV2Bullet(x) {
              ValidBulletsMembers(items, x);
            }
          }
          Some(bullets)
  }

  /** The text of a valid bullet. */
  function BulletText(b: Json): string
    requires IsV2Bullet(b)
  {
    Get(b, "text").value.s
  }

  function BulletTexts(bullets: seq<Json>): (r: seq<string>)
    requires forall i :: 0 <= i < |bullets| ==> IsV2Bullet(bullets[i])
    ensures |r| == |bullets| && forall i :: 0 <= i < |bullets| ==> r[i] == BulletText(bullets[i])
  {
    seq(|bullets|, i requires 0 <= i < |bullets| => BulletText(bullets[i]))
  }

  /** Each rendered line of the clipboard text. */
  function CopyLines(texts: seq<string>): (r: seq<string>)
    ensures |r| == |texts| && forall i :: 0 <= i < |texts| ==> r[i] == "• " + texts[i]
  {
    PrefixEach("• ", texts)
  }

  /** `bullets.map(b => "• " + b.text).join("\n")`. */
  function CopyAllText(texts: seq<string>): string {
    Join(CopyLines(texts), "\n")
  }

  /** With single-line texts the clipboard has one line per bullet, each
      the bullet glyph, a space and the text. */
  lemma CopyAllLines(texts: seq<string>)
    requires |texts| >= 1
    requires forall i :: 0 <= i < |texts| ==> Lacks(texts[i], '\n')
    ensures Split(CopyAllText(texts), "\n") == CopyLines(texts)
    ensures forall i :: 0 <= i < |texts| ==> CopyLines(texts)[i][2..] == texts[i]
  {
    var lines := CopyLines(texts);
    forall i | 0 <= i < |lines| ensures Lacks(lines[i], '\n') {
      LacksConcat("• ", texts[i], '\n');
    }
    SplitJoin(lines, "\n");
  }

  /** Pasting the copied text into the draft page's plain-text fallback
      gives back the same bullet texts, when each is a non-empty trimmed
      single line. */
  lemma CopyThenFallback(texts: seq<string>)
    requires |texts| >= 1
    requires forall i :: 0 <= i < |texts| ==> |texts[i]| > 0 && IsTrimmed(texts[i]) && Lacks(texts[i], '\n')
    ensures Draft.FallbackTexts(CopyAllText(texts)) == texts
  {
    var glyphs := seq(|texts|, i => '•');
    assert CopyLines(texts) == Draft.MarkedList(glyphs, texts) by {
      forall i | 0 <= i < |texts| ensures CopyLines(texts)[i] == Draft.MarkedList(glyphs, texts)[i] {
        assert "• " == ['•'] + " ";
      }
    }
    Draft.FallbackReadsBulletList(texts, glyphs);
  }

  /** The hint and the validation look at different elements: a list whose
      only hinted element is invalid still renders its valid plain element. */
  lemma HintAndValidationIndependent()
    ensures
      var hinted := JObj(map["text" := JStr("a"), "evidence" := JNum(1.0)]);
      var plain := JObj(map["text" := JStr("b")]);
      View(JObj(map["bullets" := JArr([hinted, plain])])) == Some([plain])
  {
    var hinted := JObj(map["text" := JStr("a"), "evidence" := JNum(1.0)]);
    var plain := JObj(map["text" := JStr("b")]);
    var items := [hinted, plain];
    assert HasV2Hint(items[0]);
    assert !IsV2Bullet(hinted);
    assert IsV2Bullet(plain);
    assert ValidBullets(items) == [plain] by {
      assert items[1..] == [plain];
      assert ValidBullets([plain]) == [plain] by {
        assert [plain][1..] == [];
      }
    }
  }
}
