/**
 * The annotation manager of the reader (annotations.js): which text
 * selections are accepted, the highlight, note and underline records appended
 * to the per-book list, the context kept around a selection, the split of a
 * node's text when an annotation is drawn, the per-chapter, search and export
 * filters, and deleteAnnotation from advanced-reader.js.
 *
 * The browser's selection is reduced to what the code reads from it: its
 * text, the text of the node that contains it and the two offsets. XPath
 * construction, DOM insertion and local storage are outside the model.
 */
module Annotations {
  import opened Text
  import opened Seqs

  const MinSelection: nat := 3
  const MaxSelection: nat := 500
  /** The characters of context kept on each side of a selection. */
  const ContextChars: nat := 50
  /** The default colour of createHighlight, the only one a toolbar highlight gets. */
  const DefaultHighlightColor := "#ffeb3b"

  datatype Kind = Highlight | Note | Underline

  /** The browser's selection: its text, the text of the node containing it
      and where it starts and ends in that text. */
  datatype Range = Range(text: string, container: string, startOffset: nat, endOffset: nat)

  /** currentSelection: the trimmed selected text and the range it came from. */
  datatype Selection = Selection(text: string, range: Range)

  /** Where an annotation sits in its node's text: the start offset and the
      length of the selected text (the node's XPath is not modelled). */
  datatype Position = Position(offset: nat, length: nat)

  /** An annotation record; `color` is set on highlights, `note` on notes. */
  datatype Annotation = Annotation(
    id: string, bookId: string, chapter: int, kind: Kind,
    color: Option<string>, text: string, note: Option<string>,
    context: string, position: Position, createdAt: int)

  // ---------------------------------------------------------------------------
  // Selections and new annotations
  // ---------------------------------------------------------------------------

  /** The trimmed selection is 3 to 500 characters long. */
  predicate Acceptable(text: string) {
    MinSelection <= |text| <= MaxSelection
  }

  /** getContextAroundSelection(50): the node's text from 50 characters before
      the selection to 50 characters after it, cut at both ends of the text. */
  function ContextAround(container: string, startOffset: nat, endOffset: nat): (r: string)
    ensures |r| <= |container|
  {
    Substring(container, Max(0, startOffset - ContextChars), Min(|container|, endOffset + ContextChars))
  }

  /** For a range inside the text, the context is the slice that widens the
      range by up to 50 characters each side, and it contains the range. */
  lemma ContextContainsRange(container: string, startOffset: nat, endOffset: nat)
    requires startOffset <= endOffset <= |container|
    ensures var lo := Max(0, startOffset - ContextChars);
      var hi := Min(|container|, endOffset + ContextChars);
      var r := ContextAround(container, startOffset, endOffset);
      && r == container[lo..hi]
      && OccursAt(r, container[startOffset..endOffset], startOffset - lo)
      && |r| <= endOffset - startOffset + 2 * ContextChars
  {
    var lo := Max(0, startOffset - ContextChars);
    var hi := Min(|container|, endOffset + ContextChars);
    var r := ContextAround(container, startOffset, endOffset);
    assert r == container[lo..hi];
    var k := startOffset - lo;
    assert lo <= startOffset && endOffset <= hi && |r| == hi - lo;
    forall t | k <= t < k + (endOffset - startOffset)
      ensures r[t] == container[lo + t]
    {
      assert r[t] == container[lo..hi][t];
    }
    assert r[k..k + (endOffset - startOffset)] == container[startOffset..endOffset];
  }

  /** The record a create* method appends for the current selection. */
  function NewAnnotation(sel: Selection, kind: Kind, id: string, bookId: string, chapter: int,
                         color: Option<string>, note: Option<string>, now: int): (a: Annotation)
    ensures a.text == sel.text && a.kind == kind && a.bookId == bookId && a.chapter == chapter
    ensures a.position.offset == sel.range.startOffset && a.position.length == |sel.range.text|
    ensures a.context == ContextAround(sel.range.container, sel.range.startOffset, sel.range.endOffset)
  {
    Annotation(id, bookId, chapter, kind, color, sel.text, note,
               ContextAround(sel.range.container, sel.range.startOffset, sel.range.endOffset),
               Position(sel.range.startOffset, |sel.range.text|), now)
  }

  /** The shape every annotation made by the manager has: an accepted text, a
      colour exactly on highlights, a non-empty note exactly on notes. */
  predicate WellFormed(a: Annotation) {
    && Acceptable(a.text)
    && (a.kind == Highlight <==> a.color.Some?)
    && (a.kind == Note <==> a.note.Some?)
    && (a.note.Some? ==> a.note.value != "")
  }

  predicate AllWellFormed(annotations: seq<Annotation>) {
    forall i :: 0 <= i < |annotations| ==> WellFormed(annotations[i])
  }

  // ---------------------------------------------------------------------------
  // Drawing an annotation: before + selected + after
  // ---------------------------------------------------------------------------

  /** applyHighlightToDOM / applyUnderlineToDOM: the node's text cut into the
      part before the annotation, the annotated part and the part after. */
  function WrapParts(text: string, p: Position): (r: (string, string, string))
    ensures r.0 + r.1 + r.2 == text
    ensures p.offset + p.length <= |text| ==>
      r.0 == text[..p.offset] && r.1 == text[p.offset..p.offset + p.length]
    ensures p.offset >= |text| ==> r.0 == text && r.1 == [] && r.2 == []
  {
    var before := Substring(text, 0, p.offset);
    var selected := Substring(text, p.offset, p.offset + p.length);
    var after := Substring(text, p.offset + p.length, |text|);
    var a := Min(p.offset, |text|);
    var b := Min(p.offset + p.length, |text|);
    assert before == text[..a] && selected == text[a..b] && after == text[b..];
    assert text == text[..a] + text[a..b] + text[b..];
    (before, selected, after)
  }

  // ---------------------------------------------------------------------------
  // Filters over the list
  // ---------------------------------------------------------------------------

  /** applyAnnotations: the annotations of this book and chapter, in order. */
  function ChapterAnnotations(annotations: seq<Annotation>, bookId: string, chapter: int): (r: seq<Annotation>)
  {
    Filter(annotations, (a: Annotation) => a.bookId == bookId && a.chapter == chapter)
  }

  lemma ChapterAnnotationsExact(annotations: seq<Annotation>, bookId: string, chapter: int)
    ensures forall a :: a in ChapterAnnotations(annotations, bookId, chapter)
                        <==> a in annotations && a.bookId == bookId && a.chapter == chapter
  {
    var p := (a: Annotation) => a.bookId == bookId && a.chapter == chapter;
    forall a | a in annotations && p(a) ensures a in ChapterAnnotations(annotations, bookId, chapter) {
      FilterKeeps(annotations, p, a);
    }
  }

  /** exportAnnotations: the annotations of this book, in order. */
  function ExportList(annotations: seq<Annotation>, bookId: string): (r: seq<Annotation>)
  {
    Filter(annotations, (a: Annotation) => a.bookId == bookId)
  }

  /** The annotation's text or its (non-empty) note contains the query,
      ignoring case. */
  predicate MatchesQuery(a: Annotation, query: string) {
    Includes(Lower(a.text), Lower(query))
    || (a.note.Some? && a.note.value != "" && Includes(Lower(a.note.value), Lower(query)))
  }

  /** searchAnnotations: this book's annotations that match the query, in order. */
  function SearchAnnotations(annotations: seq<Annotation>, bookId: string, query: string): (r: seq<Annotation>)
  {
    Filter(annotations, (a: Annotation) => a.bookId == bookId && MatchesQuery(a, query))
  }

  /** A search keeps exactly this book's matching annotations; it is the
      export list narrowed by the query, and the empty query narrows nothing. */
  lemma SearchAnnotationsExact(annotations: seq<Annotation>, bookId: string, query: string)
    ensures forall a :: a in SearchAnnotations(annotations, bookId, query)
                        <==> a in annotations && a.bookId == bookId && MatchesQuery(a, query)
    ensures SearchAnnotations(annotations, bookId, query)
         == Filter(ExportList(annotations, bookId), (a: Annotation) => MatchesQuery(a, query))
    ensures SearchAnnotations(annotations, bookId, "") == ExportList(annotations, bookId)
  {
    var mine := (a: Annotation) => a.bookId == bookId;
    var matches := (a: Annotation) => MatchesQuery(a, query);
    var both := (a: Annotation) => a.bookId == bookId && MatchesQuery(a, query);
    forall a | a in annotations && both(a) ensures a in SearchAnnotations(annotations, bookId, query) {
      FilterKeeps(annotations, both, a);
    }
    FilterFilter(annotations, mine, matches, both);
    var all := (a: Annotation) => a.bookId == bookId && MatchesQuery(a, "");
    forall i | 0 <= i < |annotations| ensures all(annotations[i]) == mine(annotations[i]) {
      assert OccursAt(Lower(annotations[i].text), Lower(""), 0);
    }
    FilterCongruent(annotations, all, mine);
  }

  /** Export and search never return another book's annotation. */
  lemma ExportListExact(annotations: seq<Annotation>, bookId: string)
    ensures forall a :: a in ExportList(annotations, bookId) <==> a in annotations && a.bookId == bookId
  {
    var mine := (a: Annotation) => a.bookId == bookId;
    forall a | a in annotations && mine(a) ensures a in ExportList(annotations, bookId) {
      FilterKeeps(annotations, mine, a);
    }
  }

  // ---------------------------------------------------------------------------
  // deleteAnnotation
  // ---------------------------------------------------------------------------

  /** The list without the first annotation carrying `id` (findIndex, splice). */
  function WithoutFirst(annotations: seq<Annotation>, id: string): (r: seq<Annotation>)
  {
    match FirstWhere(annotations, (a: Annotation) => a.id == id)
    case None => annotations
    case Some(i) => annotations[..i] + annotations[i + 1..]
  }

  /** No two annotations share an id. */
  predicate UniqueIds(annotations: seq<Annotation>) {
    forall i, j :: 0 <= i < j < |annotations| ==> annotations[i].id != annotations[j].id
  }

  /** An unknown id changes nothing; otherwise exactly one annotation with that
      id goes and the rest keep their order. When ids are unique, no annotation
      with the id is left and every other one stays. */
  lemma WithoutFirstEffect(annotations: seq<Annotation>, id: string)
    ensures var r := WithoutFirst(annotations, id);
      && ((forall a :: a in annotations ==> a.id != id) ==> r == annotations)
      && ((exists a :: a in annotations && a.id == id) ==>
            |r| == |annotations| - 1
            && exists i :: 0 <= i < |annotations| && annotations[i].id == id
                 && r == annotations[..i] + annotations[i + 1..])
      && (UniqueIds(annotations) ==> forall a :: a in r <==> a in annotations && a.id != id)
  {
    var hasId := (a: Annotation) => a.id == id;
    var found := FirstWhere(annotations, hasId);
    if found.Some? {
      var i := found.value;
      assert hasId(annotations[i]);
      assert WithoutFirst(annotations, id) == annotations[..i] + annotations[i + 1..];
      if UniqueIds(annotations) {
        RemoveAtKeepsOthers(annotations, id, i);
      }
    } else {
      forall a | a in annotations ensures a.id != id {
        var j :| 0 <= j < |annotations| && annotations[j] == a;
        assert !hasId(annotations[j]);
      }
    }
  }

  /** With unique ids, removing the annotation with an id removes exactly the
      annotations with that id. */
  lemma RemoveAtKeepsOthers(annotations: seq<Annotation>, id: string, i: nat)
    requires UniqueIds(annotations) && i < |annotations| && annotations[i].id == id
    ensures var r := annotations[..i] + annotations[i + 1..];
      forall a :: a in r <==> a in annotations && a.id != id
  {
    var r := annotations[..i] + annotations[i + 1..];
    forall j | 0 <= j < |r| ensures r[j] == if j < i then annotations[j] else annotations[j + 1] {
    }
    forall a ensures a in r <==> a in annotations && a.id != id {
      if a in r {
        var j :| 0 <= j < |r| && r[j] == a;
        if j >= i { assert annotations[i].id != annotations[j + 1].id; }
      }
      if a in annotations && a.id != id {
        var j :| 0 <= j < |annotations| && annotations[j] == a;
        if j < i { assert r[j] == a; } else { assert j != i && r[j - 1] == a; }
      }
    }
  }

  // ---------------------------------------------------------------------------
  // The manager
  // ---------------------------------------------------------------------------

  class AnnotationManager {
    /** reader.bookId */
    const bookId: string
    var annotations: seq<Annotation>
    var currentSelection: Option<Selection>
    /** Set by the colour buttons; no annotation reads it. */
    var currentHighlightColor: Option<string>

    /** The selection held is one handleTextSelection accepted, and every
        annotation has the shape the create* methods give it. */
    predicate Valid()
      reads this
    {
      && (currentSelection.Some? ==> Acceptable(currentSelection.value.text))
      && AllWellFormed(annotations)
    }

    /** The constructor with loadAnnotations: the saved list, or none. */
    constructor(bookId: string, saved: Option<seq<Annotation>>)
      ensures this.bookId == bookId
      ensures annotations == (if saved.Some? then saved.value else [])
      ensures currentSelection.None? && currentHighlightColor.None?
      ensures Valid() <==> AllWellFormed(annotations)
    {
      this.bookId := bookId;
      annotations := if saved.Some? then saved.value else [];
      currentSelection := None;
      currentHighlightColor := None;
    }

    /** handleTextSelection: a selection whose trimmed text is 3 to 500
        characters long becomes the current one; any other clears it. */
    method HandleTextSelection(sel: Option<Range>)
      modifies this`currentSelection
      ensures currentSelection.Some? <==> sel.Some? && Acceptable(Trim(sel.value.text))
      ensures currentSelection.Some? ==>
        currentSelection.value == Selection(Trim(sel.value.text), sel.value)
      ensures currentSelection.Some? ==> var t := currentSelection.value.text;
        !IsSpace(t[0]) && !IsSpace(t[|t| - 1])
      ensures old(Valid()) ==> Valid()
    {
      if sel.None? {
        HideAnnotationToolbar();
        return;
      }
      var selectedText := Trim(sel.value.text);
      TrimSlice(sel.value.text);
      if |selectedText| < MinSelection || |selectedText| > MaxSelection {
        HideAnnotationToolbar();
        return;
      }
      currentSelection := Some(Selection(selectedText, sel.value));
    }

    /** hideAnnotationToolbar: the selection is dropped. */
    method HideAnnotationToolbar()
      modifies this`currentSelection
      ensures currentSelection.None?
      ensures old(Valid()) ==> Valid()
    {
      currentSelection := None;
    }

    /** createHighlight(color): append a highlight of the current selection. */
    method CreateHighlight(color: string, id: string, chapter: int, now: int)
      modifies this`annotations
      ensures currentSelection.None? ==> annotations == old(annotations)
      ensures currentSelection.Some? ==>
        annotations == old(annotations) + [NewAnnotation(currentSelection.value, Highlight, id, bookId,
                                                         chapter, Some(color), None, now)]
      ensures old(Valid()) ==> Valid()
    {
      if currentSelection.None? {
        return;
      }
      var highlight := NewAnnotation(currentSelection.value, Highlight, id, bookId, chapter, Some(color), None, now);
      annotations := annotations + [highlight];
    }

    /** createNote: append a note with the text the user entered; a cancelled
        or empty prompt adds nothing. */
    method CreateNote(noteText: Option<string>, id: string, chapter: int, now: int)
      modifies this`annotations
      ensures currentSelection.None? || noteText.None? || noteText.value == "" ==>
        annotations == old(annotations)
      ensures currentSelection.Some? && noteText.Some? && noteText.value != "" ==>
        annotations == old(annotations)
          + [NewAnnotation(currentSelection.value, Note, id, bookId, chapter, None, noteText, now)]
      ensures old(Valid()) ==> Valid()
    {
      if currentSelection.None? {
        return;
      }
      if noteText.None? || noteText.value == "" {
        return;
      }
      var note := NewAnnotation(currentSelection.value, Note, id, bookId, chapter, None, noteText, now);
      annotations := annotations + [note];
    }

    /** createUnderline: append an underline of the current selection. */
    method CreateUnderline(id: string, chapter: int, now: int)
      modifies this`annotations
      ensures currentSelection.None? ==> annotations == old(annotations)
      ensures currentSelection.Some? ==>
        annotations == old(annotations) + [NewAnnotation(currentSelection.value, Underline, id, bookId,
                                                         chapter, None, None, now)]
      ensures old(Valid()) ==> Valid()
    {
      if currentSelection.None? {
        return;
      }
      var underline := NewAnnotation(currentSelection.value, Underline, id, bookId, chapter, None, None, now);
      annotations := annotations + [underline];
    }

    /** handleAnnotationAction: with a selection, run the toolbar action and
        drop the selection; without one, do nothing. A toolbar highlight is
        always #ffeb3b, whatever colour was picked. */
    method HandleAnnotationAction(action: string, noteText: Option<string>, id: string, chapter: int, now: int)
      modifies this`annotations, this`currentSelection
      ensures old(currentSelection).None? ==> annotations == old(annotations) && currentSelection.None?
      ensures old(currentSelection).Some? ==> currentSelection.None?
      ensures |old(annotations)| <= |annotations| <= |old(annotations)| + 1
      ensures annotations[..|old(annotations)|] == old(annotations)
      ensures action !in {"highlight", "note", "underline"} ==> annotations == old(annotations)
      ensures action == "highlight" && old(currentSelection).Some? ==>
        annotations == old(annotations) + [NewAnnotation(old(currentSelection).value, Highlight, id, bookId,
                                                         chapter, Some(DefaultHighlightColor), None, now)]
      ensures action == "note" && old(currentSelection).Some? && noteText.Some? && noteText.value != "" ==>
        annotations == old(annotations) + [NewAnnotation(old(currentSelection).value, Note, id, bookId,
                                                         chapter, None, noteText, now)]
      ensures action == "note" && (noteText.None? || noteText.value == "") ==> annotations == old(annotations)
      ensures action == "underline" && old(currentSelection).Some? ==>
        annotations == old(annotations) + [NewAnnotation(old(currentSelection).value, Underline, id, bookId,
                                                         chapter, None, None, now)]
      ensures forall i :: |old(annotations)| <= i < |annotations| && annotations[i].kind == Highlight
                          ==> annotations[i].color == Some(DefaultHighlightColor)
      ensures old(Valid()) ==> Valid()
    {
      if currentSelection.None? {
        return;
      }
      if action == "highlight" {
        CreateHighlight(DefaultHighlightColor, id, chapter, now);
      } else if action == "note" {
        CreateNote(noteText, id, chapter, now);
      } else if action == "underline" {
        CreateUnderline(id, chapter, now);
      }
      HideAnnotationToolbar();
    }

    /** setHighlightColor: remembered, and nothing else changes. */
    method SetHighlightColor(color: string)
      modifies this`currentHighlightColor
      ensures currentHighlightColor == Some(color)
      ensures old(Valid()) ==> Valid()
    {
      currentHighlightColor := Some(color);
    }

    /** deleteAnnotation (advanced-reader.js): splice out the first annotation
        with the id, if there is one. */
    method DeleteAnnotation(annotationId: string)
      modifies this`annotations
      ensures annotations == WithoutFirst(old(annotations), annotationId)
      ensures old(Valid()) ==> Valid()
    {
      var index := FindFirst(annotations, (a: Annotation) => a.id == annotationId);
      if index.Some? {
        annotations := annotations[..index.value] + annotations[index.value + 1..];
      }
    }
  }
}
