/** The global feedback store: the analysed feedback of the resume on screen and the two
    object URLs of its preview image and PDF. The store owns the URLs, so replacing or
    clearing one revokes it; the revocations are recorded in a ghost log. */
module FeedbackStore {
  import opened JsText

  datatype TipKind = Good | Improve
  datatype Tip = Tip(kind: TipKind, tip: string, explanation: string)
  datatype Category = Category(score: int, tips: seq<Tip>)

  /** The optional ATS block, whose tips are optional too. */
  datatype Ats = Ats(score: int, tips: Option<seq<Tip>>)

  datatype Feedback = Feedback(
    overallScore: int,
    toneAndStyle: Category,
    content: Category,
    structure: Category,
    skills: Category,
    ats: Option<Ats>)

  /** The keys of `Feedback` other than `overallScore`. */
  datatype CategoryKey = ToneAndStyle | Content | Structure | Skills | AtsKey

  /** The placeholder feedback of `resetToDefault`. */
  const DefaultFeedback: Feedback :=
    Feedback(72, Category(75, []), Category(68, []), Category(55, []), Category(45, []), None)

  /** The score under a key; `None` only for an absent ATS block. */
  function ScoreAt(f: Feedback, key: CategoryKey): Option<int> {
    match key
    case ToneAndStyle => Some(f.toneAndStyle.score)
    case Content => Some(f.content.score)
    case Structure => Some(f.structure.score)
    case Skills => Some(f.skills.score)
    case AtsKey => if f.ats.Some? then Some(f.ats.value.score) else None
  }

  /** The tips under a key; `None` when the ATS block or its tips are absent. */
  function TipsAt(f: Feedback, key: CategoryKey): Option<seq<Tip>> {
    match key
    case ToneAndStyle => Some(f.toneAndStyle.tips)
    case Content => Some(f.content.tips)
    case Structure => Some(f.structure.tips)
    case Skills => Some(f.skills.tips)
    case AtsKey => if f.ats.Some? then f.ats.value.tips else None
  }

  /** A feedback is determined by its overall score and the score and tips under every key. */
  lemma FeedbackDeterminedByKeys(f: Feedback, g: Feedback)
    requires f.overallScore == g.overallScore
    requires forall k :: ScoreAt(f, k) == ScoreAt(g, k) && TipsAt(f, k) == TipsAt(g, k)
    ensures f == g
  {
    assert ScoreAt(f, ToneAndStyle) == ScoreAt(g, ToneAndStyle) && TipsAt(f, ToneAndStyle) == TipsAt(g, ToneAndStyle);
    assert ScoreAt(f, Content) == ScoreAt(g, Content) && TipsAt(f, Content) == TipsAt(g, Content);
    assert ScoreAt(f, Structure) == ScoreAt(g, Structure) && TipsAt(f, Structure) == TipsAt(g, Structure);
    assert ScoreAt(f, Skills) == ScoreAt(g, Skills) && TipsAt(f, Skills) == TipsAt(g, Skills);
    assert ScoreAt(f, AtsKey) == ScoreAt(g, AtsKey) && TipsAt(f, AtsKey) == TipsAt(g, AtsKey);
  }

  /** `{ ...f, [key]: { ...f[key], score } }`: the block under `key` gets the new score and
      keeps its tips (an absent ATS block becomes `{ score }` with no tips), and nothing
      else changes. */
  function WithCategoryScore(f: Feedback, key: CategoryKey, score: int): (g: Feedback)
    ensures g.overallScore == f.overallScore
    ensures ScoreAt(g, key) == Some(score) && TipsAt(g, key) == TipsAt(f, key)
    ensures forall k :: k != key ==> ScoreAt(g, k) == ScoreAt(f, k) && TipsAt(g, k) == TipsAt(f, k)
  {
    match key
    case ToneAndStyle => f.(toneAndStyle := f.toneAndStyle.(score := score))
    case Content => f.(content := f.content.(score := score))
    case Structure => f.(structure := f.structure.(score := score))
    case Skills => f.(skills := f.skills.(score := score))
    case AtsKey =>
      f.(ats := Some(if f.ats.Some? then f.ats.value.(score := score) else Ats(score, None)))
  }

  /** Updating a score twice keeps only the second value, and setting a block back to its
      own score changes nothing. */
  lemma WithCategoryScoreLastWins(f: Feedback, key: CategoryKey, s1: int, s2: int)
    ensures WithCategoryScore(WithCategoryScore(f, key, s1), key, s2) == WithCategoryScore(f, key, s2)
    ensures ScoreAt(f, key) == Some(s1) ==> WithCategoryScore(f, key, s1) == f
  {
    var g, h := WithCategoryScore(WithCategoryScore(f, key, s1), key, s2), WithCategoryScore(f, key, s2);
    FeedbackDeterminedByKeys(g, h);
    if ScoreAt(f, key) == Some(s1) {
      FeedbackDeterminedByKeys(WithCategoryScore(f, key, s1), f);
    }
  }

  /** Revocation caused by replacing `prev` with `next`: the previous URL is revoked when
      it is truthy and differs from the new one. */
  function Revocation(prev: Option<string>, next: Option<string>): (revoked: seq<string>)
    ensures revoked == [] || (TruthyOpt(prev) && revoked == [prev.value])
    ensures revoked == [] <==> !TruthyOpt(prev) || prev == next
  {
    if TruthyOpt(prev) && prev != next then [prev.value] else []
  }

  /** Revocation when a URL is dropped outright (`clearAll`, `resetToDefault`). */
  function RevokeIfSet(url: Option<string>): (revoked: seq<string>)
    ensures revoked == Revocation(url, None)
  {
    if TruthyOpt(url) then [url.value] else []
  }

  /** The store. Fields are `null` as `None`. */
  class Store {
    var feedback: Option<Feedback>
    var imageUrl: Option<string>
    var resumeUrl: Option<string>
    /** Every URL passed to `URL.revokeObjectURL`, in call order. */
    ghost var revoked: seq<string>
    /** Every truthy URL the store has held. */
    ghost var held: set<string>

    /** No object URL leaks: every URL the store has held is still held or was revoked. */
    ghost predicate Valid()
      reads this
    {
      "" !in held &&
      forall u :: u in held ==>
        imageUrl == Some(u) || resumeUrl == Some(u) || u in revoked
    }

    /** The initial state: nothing loaded. */
    constructor ()
      ensures Valid()
      ensures feedback == None && imageUrl == None && resumeUrl == None
      ensures revoked == [] && held == {}
    {
      feedback, imageUrl, resumeUrl := None, None, None;
      revoked, held := [], {};
    }

    /** `setFeedback(f)`: replaces the feedback and touches nothing else. */
    method SetFeedback(f: Option<Feedback>)
      requires Valid()
      modifies this
      ensures Valid()
      ensures feedback == f
      ensures imageUrl == old(imageUrl) && resumeUrl == old(resumeUrl)
      ensures revoked == old(revoked) && held == old(held)
    {
      feedback := f;
    }

    /** `setImageUrl(u)`: revokes the previous image URL when it is truthy and differs
        from `u`, then stores `u`. */
    method SetImageUrl(u: Option<string>)
      requires Valid()
      modifies this
      ensures Valid()
      ensures imageUrl == u
      ensures revoked == old(revoked) + Revocation(old(imageUrl), u)
      ensures feedback == old(feedback) && resumeUrl == old(resumeUrl)
      ensures held == old(held) + (if TruthyOpt(u) then {u.value} else {})
    {
      var prev := imageUrl;
      if TruthyOpt(prev) && prev != u {
        revoked := revoked + [prev.value];
      }
      imageUrl := u;
      if TruthyOpt(u) {
        held := held + {u.value};
      }
    }

    /** `setResumeUrl(u)`: the same as `setImageUrl`, for the PDF URL. */
    method SetResumeUrl(u: Option<string>)
      requires Valid()
      modifies this
      ensures Valid()
      ensures resumeUrl == u
      ensures revoked == old(revoked) + Revocation(old(resumeUrl), u)
      ensures feedback == old(feedback) && imageUrl == old(imageUrl)
      ensures held == old(held) + (if TruthyOpt(u) then {u.value} else {})
    {
      var prev := resumeUrl;
      if TruthyOpt(prev) && prev != u {
        revoked := revoked + [prev.value];
      }
      resumeUrl := u;
      if TruthyOpt(u) {
        held := held + {u.value};
      }
    }

    /** `clearAll()`: revokes whichever URLs are set and empties all three fields. */
    method ClearAll()
      requires Valid()
      modifies this
      ensures Valid()
      ensures feedback == None && imageUrl == None && resumeUrl == None
      ensures revoked == old(revoked) + RevokeIfSet(old(imageUrl)) + RevokeIfSet(old(resumeUrl))
      ensures held == old(held)
    {
      if TruthyOpt(imageUrl) {
        revoked := revoked + [imageUrl.value];
      }
      if TruthyOpt(resumeUrl) {
        revoked := revoked + [resumeUrl.value];
      }
      feedback, imageUrl, resumeUrl := None, None, None;
    }

    /** `resetToDefault()`: revokes the URLs, installs the default feedback and empties
        both URLs. */
    method ResetToDefault()
      requires Valid()
      modifies this
      ensures Valid()
      ensures feedback == Some(DefaultFeedback) && imageUrl == None && resumeUrl == None
      ensures revoked == old(revoked) + RevokeIfSet(old(imageUrl)) + RevokeIfSet(old(resumeUrl))
      ensures held == old(held)
    {
      if TruthyOpt(imageUrl) {
        revoked := revoked + [imageUrl.value];
      }
      if TruthyOpt(resumeUrl) {
        revoked := revoked + [resumeUrl.value];
      }
      feedback, imageUrl, resumeUrl := Some(DefaultFeedback), None, None;
    }

    /** `updateCategoryScore(key, score)`: without feedback the state is returned as it is;
        otherwise only the score under `key` changes. */
    method UpdateCategoryScore(key: CategoryKey, score: int)
      requires Valid()
      modifies this
      ensures Valid()
      ensures old(feedback) == None ==> feedback == None
      ensures old(feedback).Some? ==> feedback == Some(WithCategoryScore(old(feedback).value, key, score))
      ensures imageUrl == old(imageUrl) && resumeUrl == old(resumeUrl)
      ensures revoked == old(revoked) && held == old(held)
    {
      if feedback == None {
        return;
      }
      feedback := Some(WithCategoryScore(feedback.value, key, score));
    }

    /** `updateOverallScore(score)`: sets the overall score of a present feedback; a
        missing feedback stays missing. */
    method UpdateOverallScore(score: int)
      requires Valid()
      modifies this
      ensures Valid()
      ensures old(feedback) == None ==> feedback == None
      ensures old(feedback).Some? ==> feedback == Some(old(feedback).value.(overallScore := score))
      ensures imageUrl == old(imageUrl) && resumeUrl == old(resumeUrl)
      ensures revoked == old(revoked) && held == old(held)
    {
      feedback := if feedback.Some? then Some(feedback.value.(overallScore := score)) else feedback;
    }
  }

  /** The placeholder installed by `resetToDefault`: overall 72, category scores 75, 68, 55
      and 45 with no tips, and no ATS block. */
  lemma DefaultFeedbackScores()
    ensures DefaultFeedback.overallScore == 72
    ensures ScoreAt(DefaultFeedback, ToneAndStyle) == Some(75) && ScoreAt(DefaultFeedback, Content) == Some(68)
    ensures ScoreAt(DefaultFeedback, Structure) == Some(55) && ScoreAt(DefaultFeedback, Skills) == Some(45)
    ensures ScoreAt(DefaultFeedback, AtsKey) == None
    ensures forall k :: k != AtsKey ==> TipsAt(DefaultFeedback, k) == Some([])
  {
  }

  /** Once both URL fields are empty, every URL the store has held was revoked. */
  lemma NothingLiveWhenCleared(s: Store)
    requires s.Valid() && s.imageUrl == None && s.resumeUrl == None
    ensures forall u :: u in s.held ==> u in s.revoked
  {
  }

  /** At most two URLs are live at any time: held by the store and not yet revoked. */
  lemma AtMostTwoLive(s: Store)
    requires s.Valid()
    ensures |set u | u in s.held && u !in s.revoked| <= 2
  {
    var live := set u | u in s.held && u !in s.revoked;
    var image: set<string> := if s.imageUrl.Some? then {s.imageUrl.value} else {};
    var resume: set<string> := if s.resumeUrl.Some? then {s.resumeUrl.value} else {};
    assert live <= image + resume;
    SubsetSize(live, image + resume);
  }

  lemma {:induction false} SubsetSize(a: set<string>, b: set<string>)
    requires a <= b
    ensures |a| <= |b|
  {
    if a != {} {
      var x :| x in a;
      SubsetSize(a - {x}, b - {x});
    }
  }
}
