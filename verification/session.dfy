/**
 * `display_images_with_status` and the session it runs: list the image
 * files, load the prior record, ask the reviewer for a status per image and
 * save the record built from the answers, replacing the saved one whole.
 * The reviewer and the image library are oracles: `displays(f)` says
 * whether opening, resizing and showing image `f` succeeds, and
 * `pick(f, d)` is the index chosen on the radio widget for `f` when it is
 * pre-selected at index `d`.
 */
module Session {
  import opened Wrappers
  import opened StatusStore
  import opened ImageFiles

  /** `options.index(x)`: the first position of `x`, or None where Python raises `ValueError`. */
  function IndexOf(options: seq<string>, x: string): (r: Option<nat>)
    ensures r.None? <==> x !in options
    ensures r.Some? ==> r.value < |options| && options[r.value] == x
    ensures r.Some? ==> forall j :: 0 <= j < r.value ==> options[j] != x
  {
    if |options| == 0 then None
    else if options[0] == x then Some(0)
    else
      match IndexOf(options[1..], x)
      case None => None
      case Some(i) => Some(i + 1)
  }

  /**
   * `status_options.index(statuses.get(f, status_options[0]))`. The
   * default `status_options[0]` is evaluated even when `f` has a prior
   * status, so with no options the expression raises; a prior status that
   * is not an option makes `index` raise.
   */
  function DefaultIndex(prior: Record, f: string, options: seq<string>): (r: Option<nat>)
    ensures r.Some? <==> |options| > 0 && (f in prior ==> prior[f] in options)
    ensures r.Some? ==> r.value < |options|
    ensures r.Some? ==> options[r.value] == (if f in prior then prior[f] else options[0])
  {
    if |options| == 0 then None
    else IndexOf(options, if f in prior then prior[f] else options[0])
  }

  /**
   * With options and a reconciled prior record the pre-selection never
   * raises: it is the position of the prior status, or the first option
   * for an image without one.
   */
  lemma DefaultIndexValid(prior: Record, f: string, options: seq<string>)
    requires |options| > 0 && InVocabulary(prior, options)
    ensures DefaultIndex(prior, f, options).Some?
    ensures f in prior ==> options[DefaultIndex(prior, f, options).value] == prior[f]
    ensures f !in prior ==> DefaultIndex(prior, f, options) == Some(0)
  {
  }

  /** The radio widget answers with one of the options it shows. */
  ghost predicate PicksAnOption(pick: (string, nat) -> nat, n: nat)
  {
    forall f: string, d: nat :: d < n ==> pick(f, d) < n
  }

  /**
   * The status recorded for image `f` in this session, or None when the
   * `try` body raised (the image could not be shown, or the pre-selection
   * could not be computed) and `f` is left out of the new record.
   */
  function Selection(f: string, prior: Record, options: seq<string>,
                     displays: string -> bool, pick: (string, nat) -> nat): (r: Option<string>)
    requires PicksAnOption(pick, |options|)
    ensures r.Some? <==> displays(f) && DefaultIndex(prior, f, options).Some?
    ensures r.Some? ==> r.value in options
    ensures r.Some? ==> r.value == options[pick(f, DefaultIndex(prior, f, options).value)]
  {
    if !displays(f) then None
    else
      match DefaultIndex(prior, f, options)
      case None => None
      case Some(d) => Some(options[pick(f, d)])
  }

  /**
   * The loop of `display_images_with_status`: the new record holds exactly
   * the images whose step succeeded, each with the status picked for it,
   * which is always an option. Nothing of the prior record is carried over
   * except through the pre-selection.
   */
  method DisplayImagesWithStatus(images: seq<string>, prior: Record, options: seq<string>,
                                 displays: string -> bool, pick: (string, nat) -> nat)
    returns (newStatuses: Record)
    requires PicksAnOption(pick, |options|)
    ensures forall f :: f in newStatuses <==> f in images && Selection(f, prior, options, displays, pick).Some?
    ensures forall f :: f in newStatuses ==> newStatuses[f] == Selection(f, prior, options, displays, pick).value
    ensures InVocabulary(newStatuses, options)
  {
    newStatuses := map[];
    var i := 0;
    while i < |images|
      invariant 0 <= i <= |images|
      invariant forall f :: f in newStatuses <==> f in images[..i] && Selection(f, prior, options, displays, pick).Some?
      invariant forall f :: f in newStatuses ==> newStatuses[f] == Selection(f, prior, options, displays, pick).value
    {
      var f := images[i];
      if displays(f) {
        match DefaultIndex(prior, f, options)
        case None =>
        case Some(d) =>
          newStatuses := newStatuses[f := options[pick(f, d)]];
      }
      assert images[..i + 1] == images[..i] + [f];
      i := i + 1;
    }
    assert images[..i] == images;
  }

  /**
   * With options and a reconciled prior record, an image enters the new
   * record exactly when it could be shown.
   */
  lemma SelectionIffDisplayed(f: string, prior: Record, options: seq<string>,
                              displays: string -> bool, pick: (string, nat) -> nat)
    requires PicksAnOption(pick, |options|)
    requires |options| > 0 && InVocabulary(prior, options)
    ensures Selection(f, prior, options, displays, pick).Some? <==> displays(f)
  {
    DefaultIndexValid(prior, f, options);
  }

  /**
   * One session against a folder: the load, the image loop and the save. With a completed write, the file then holds exactly the image
   * files of the listing that could be shown (none at all when there are no
   * options), each labelled with the option picked for it; entries of the
   * previous file for any other name are gone.
   */
  method RunSession(listing: seq<string>, file: StatusFile, options: seq<string>,
                    displays: string -> bool, pick: (string, nat) -> nat, outcome: WriteOutcome)
    returns (saved: StatusFile, notice: Notice)
    requires PicksAnOption(pick, |options|)
    ensures notice == Saved <==> outcome.Written?
    ensures outcome.Written? ==> saved.Parsed? && saved.doc.Object?
    ensures outcome.Written? ==> forall f :: f in saved.doc.entries <==>
      |options| > 0 && f in listing && IsImageFile(f) && displays(f)
    ensures outcome.Written? ==> forall f :: f in saved.doc.entries ==>
      var prior := Load(file, options).0;
      saved.doc.entries[f] == JString(Selection(f, prior, options, displays, pick).value)
    ensures outcome.Written? ==> Load(saved, options).0.Keys == saved.doc.entries.Keys
  {
    var images := GetImageFiles(listing);
    var (prior, _) := Load(file, options);
    var newStatuses := DisplayImagesWithStatus(images, prior, options, displays, pick);
    if |options| > 0 {
      forall f {
        SelectionIffDisplayed(f, prior, options, displays, pick);
      }
    }
    forall f | f in listing && IsImageFile(f) {
      ListedImagesAreKept(listing, f);
    }
    SaveThenLoadExact(newStatuses, file, options);
    var (s, n) := Save(newStatuses, file, outcome);
    saved, notice := s, n;
  }
}
