/** The lesion picker on the survey-building page: the diagnosis filter applied to the fetched
    archive images, and the thumbnail selection that highlights the chosen image. Thumbnails are
    identified by the display that created them and their position in it, so that a selection made
    before the list is redisplayed can be told apart from the new thumbnails. */
module LesionPicker {

  import opened Common
  import opened Text

  /** An archive image as far as the picker uses it: its thumbnail URL, its attribution and the
      `diagnosis_1` entry of its clinical metadata, any of which may be missing. */
  datatype Image = Image(thumbnail: string, attribution: Option<string>, diagnosis: Option<string>)

  /** The filter value that shows every image. */
  const All := "all"

  /** A missing diagnosis reads as the empty string; the comparison is on the lowercased text. */
  function DiagnosisKey(img: Image): (k: string)
    ensures forall i :: 0 <= i < |k| ==> !IsUpper(k[i])
  {
    ToLower(img.diagnosis.GetOr(""))
  }

  /** The images shown for a filter value, in the order they were fetched. */
  function FilterImages(images: seq<Image>, filter: string): (r: seq<Image>)
    ensures filter == All ==> r == images
    ensures filter != All ==> forall x :: x in r <==> x in images && DiagnosisKey(x) == filter
    ensures filter != All ==> forall x :: DiagnosisKey(x) == filter ==> multiset(r)[x] == multiset(images)[x]
    ensures Subsequence(r, images)
  {
    if filter == All then
      SubsequenceRefl(images);
      images
    else
      Matching(images, filter)
  }

  function Matching(images: seq<Image>, filter: string): (r: seq<Image>)
    ensures forall x :: x in r <==> x in images && DiagnosisKey(x) == filter
    ensures forall x :: DiagnosisKey(x) == filter ==> multiset(r)[x] == multiset(images)[x]
    ensures Subsequence(r, images)
  {
    if |images| == 0 then []
    else
      var rest := Matching(images[1..], filter);
      assert multiset(images) == multiset([images[0]]) + multiset(images[1..]) by {
        assert images == [images[0]] + images[1..];
      }
      if DiagnosisKey(images[0]) == filter then [images[0]] + rest
      else
        assert images[0] !in rest;
        rest
  }

  lemma {:induction false} SubsequenceRefl(s: seq<Image>)
    ensures Subsequence(s, s)
  {
    if |s| > 0 {
      SubsequenceRefl(s[1..]);
    }
  }

  /** A lowercased diagnosis never equals a value with an upper-case letter. */
  lemma KeyNeverHasUpper(img: Image, filter: string, i: nat)
    requires i < |filter| && IsUpper(filter[i])
    ensures DiagnosisKey(img) != filter
  {
    if |DiagnosisKey(img)| == |filter| {
      assert !IsUpper(DiagnosisKey(img)[i]);
    }
  }

  /** A filter value containing an upper-case letter (other than `all`) shows no image. */
  lemma {:induction false} UpperCaseFilterShowsNothing(images: seq<Image>, filter: string, i: nat)
    requires filter != All && i < |filter| && IsUpper(filter[i])
    ensures FilterImages(images, filter) == []
  {
    if |images| > 0 {
      KeyNeverHasUpper(images[0], filter, i);
      UpperCaseFilterShowsNothing(images[1..], filter, i);
    }
  }

  /** The comparison ignores the case of the stored diagnosis: two images whose diagnoses differ
      only in letter case are shown or hidden together. */
  lemma CaseOfDiagnosisIgnored(images: seq<Image>, filter: string, a: Image, b: Image)
    requires a in images && b in images
    requires ToLower(a.diagnosis.GetOr("")) == ToLower(b.diagnosis.GetOr(""))
    ensures a in FilterImages(images, filter) <==> b in FilterImages(images, filter)
  {
  }

  /** Filtering again with the same value changes nothing. */
  lemma {:induction false} MatchingIdempotent(images: seq<Image>, filter: string)
    ensures Matching(Matching(images, filter), filter) == Matching(images, filter)
  {
    if |images| > 0 {
      MatchingIdempotent(images[1..], filter);
      if DiagnosisKey(images[0]) == filter {
        var r := Matching(images, filter);
        assert r[1..] == Matching(images[1..], filter);
      }
    }
  }

  // ---------------------------------------------------------------------------------------------
  // Selection

  datatype Border = Transparent | SolidBlue

  /** A thumbnail: the display that created it and its position in that display. */
  datatype Thumb = Thumb(display: nat, index: nat)

  /** The thumbnails currently shown (their borders), the number of the current display, and the
      remembered selection, which may be a thumbnail of an earlier display. */
  datatype Picker = Picker(display: nat, borders: seq<Border>, selected: Option<Thumb>)

  const Empty := Picker(0, [], None)

  predicate Highlighted(p: Picker, j: nat)
  {
    j < |p.borders| && p.borders[j] == SolidBlue
  }

  /** A shown thumbnail is highlighted exactly when it is the remembered selection, and the
      selection is either a shown thumbnail or one of an earlier display. */
  predicate Consistent(p: Picker)
  {
    && (p.selected.Some? ==> p.selected.value.display <= p.display)
    && (p.selected.Some? && p.selected.value.display == p.display ==> p.selected.value.index < |p.borders|)
    && forall j :: 0 <= j < |p.borders| ==> (p.borders[j] == SolidBlue <==> p.selected == Some(Thumb(p.display, j)))
  }

  /** Showing a new list of `n` images: fresh thumbnails with transparent borders. The remembered
      selection is not cleared. */
  function Display(p: Picker, n: nat): (p': Picker)
    ensures |p'.borders| == n && p'.display == p.display + 1 && p'.selected == p.selected
    ensures forall j :: 0 <= j < n ==> !Highlighted(p', j)
    ensures Consistent(p) ==> Consistent(p')
  {
    Picker(p.display + 1, seq(n, _ => Transparent), p.selected)
  }

  /** Clicking shown thumbnail `i`: the remembered thumbnail loses its border (which is visible
      only when it belongs to the current display), thumbnail `i` gets the blue border and becomes
      the selection. */
  function SelectImage(p: Picker, i: nat): (p': Picker)
    requires i < |p.borders|
    ensures p'.display == p.display && |p'.borders| == |p.borders|
    ensures p'.selected == Some(Thumb(p.display, i))
    ensures Consistent(p) ==> Consistent(p')
    ensures Consistent(p) ==> forall j :: 0 <= j < |p'.borders| ==> (Highlighted(p', j) <==> j == i)
  {
    var cleared :=
      match p.selected
      case Some(t) => if t.display == p.display && t.index < |p.borders| then p.borders[t.index := Transparent] else p.borders
      case None => p.borders;
    Picker(p.display, cleared[i := SolidBlue], Some(Thumb(p.display, i)))
  }

  /** The submit button: the remembered selection, or nothing when none was made (the page then
      asks for a selection). */
  function SubmitImage(p: Picker): (t: Option<Thumb>)
    ensures t.None? <==> p.selected.None?
    ensures Consistent(p) && t.Some? && t.value.display == p.display ==> Highlighted(p, t.value.index)
    ensures forall j :: Consistent(p) && Highlighted(p, j) ==> t == Some(Thumb(p.display, j))
  {
    p.selected
  }

  /** Whatever the clicks and redisplays, at most one thumbnail is highlighted. */
  lemma AtMostOneHighlighted(p: Picker, j: nat, k: nat)
    requires Consistent(p)
    requires Highlighted(p, j) && Highlighted(p, k)
    ensures j == k
  {
  }

  /** After the list is redisplayed nothing is highlighted, yet the earlier selection can still be
      submitted. */
  lemma SelectionSurvivesRedisplay(p: Picker, i: nat, n: nat)
    requires Consistent(p) && i < |p.borders|
    ensures var p' := Display(SelectImage(p, i), n);
      && (forall j :: 0 <= j < n ==> !Highlighted(p', j))
      && SubmitImage(p') == Some(Thumb(p.display, i))
  {
  }

  // ---------------------------------------------------------------------------------------------
  // Any sequence of displays and clicks from the empty picker

  /** A user action: the list is (re)displayed with `count` images, or thumbnail `index` is
      clicked. A click can only land on a shown thumbnail; one outside the list does nothing. */
  datatype Action = Show(count: nat) | Click(index: nat)

  function Apply(p: Picker, a: Action): Picker
  {
    match a
    case Show(n) => Display(p, n)
    case Click(i) => if i < |p.borders| then SelectImage(p, i) else p
  }

  function Replay(actions: seq<Action>): Picker
  {
    if |actions| == 0 then Empty else Apply(Replay(actions[..|actions| - 1]), actions[|actions| - 1])
  }

  /** Reference: the number of displays so far. */
  function Shows(actions: seq<Action>): nat
  {
    if |actions| == 0 then 0
    else Shows(actions[..|actions| - 1]) + if actions[|actions| - 1].Show? then 1 else 0
  }

  /** Reference: the number of thumbnails the latest display created, 0 before any display. */
  function Shown(actions: seq<Action>): nat
  {
    if |actions| == 0 then 0
    else if actions[|actions| - 1].Show? then actions[|actions| - 1].count
    else Shown(actions[..|actions| - 1])
  }

  /** Action `k` is a click on a thumbnail shown at that moment. */
  predicate ValidClick(actions: seq<Action>, k: int)
  {
    0 <= k < |actions| && actions[k].Click? && actions[k].index < Shown(actions[..k])
  }

  /** Reference: the thumbnail of the latest click on a shown thumbnail, named by the display it
      belonged to. */
  function LastClick(actions: seq<Action>): Option<Thumb>
  {
    if |actions| == 0 then None
    else
      var front := actions[..|actions| - 1];
      var a := actions[|actions| - 1];
      if a.Click? && a.index < Shown(front) then Some(Thumb(Shows(front), a.index)) else LastClick(front)
  }

  /** The replayed picker is consistent, shows the latest display's thumbnails, and remembers the
      latest click. */
  lemma {:induction false} ReplayTracks(actions: seq<Action>)
    ensures Replay(actions).display == Shows(actions)
    ensures |Replay(actions).borders| == Shown(actions)
    ensures Replay(actions).selected == LastClick(actions)
    ensures Consistent(Replay(actions))
  {
    if |actions| > 0 {
      ReplayTracks(actions[..|actions| - 1]);
    }
  }

  /** No click on a shown thumbnail means no selection. */
  lemma {:induction false} LastClickNone(actions: seq<Action>)
    ensures LastClick(actions).None? <==> forall k :: 0 <= k < |actions| ==> !ValidClick(actions, k)
  {
    if |actions| > 0 {
      var front := actions[..|actions| - 1];
      LastClickNone(front);
      assert forall k :: 0 <= k < |front| ==> front[..k] == actions[..k] && front[k] == actions[k];
      assert forall k :: 0 <= k < |front| ==> (ValidClick(front, k) <==> ValidClick(actions, k));
      var a := actions[|actions| - 1];
      assert ValidClick(actions, |actions| - 1) <==> a.Click? && a.index < Shown(front);
    }
  }

  /** Whatever the displays and clicks, the submit button sends the latest clicked thumbnail,
      even one from an earlier display, and sends nothing (the page asks for a selection) exactly
      when no thumbnail was ever clicked. */
  lemma SubmitAfterReplay(actions: seq<Action>)
    ensures SubmitImage(Replay(actions)) == LastClick(actions)
    ensures SubmitImage(Replay(actions)).None? <==> forall k :: 0 <= k < |actions| ==> !ValidClick(actions, k)
  {
    ReplayTracks(actions);
    LastClickNone(actions);
  }
}
