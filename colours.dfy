/** Cell colours of the pixel painter, and the values its snapshots and its
    JSON documents hold for them.

    A cell's colour is its `style.backgroundColor` string. Three kinds of value
    occur: the empty string (no colour set), the literal "transparent" (what the
    eraser and the clear button write), and any other colour string, compared
    by plain string equality. */
module Colours {

  datatype Colour = Unset | Transparent | Opaque(css: string)

  /** An entry of a snapshot or of a JSON `pixels` array: `null` or a string. */
  datatype Entry = Null | Text(value: string)

  /** Opaque colours never spell one of the two special style strings. */
  predicate ValidColour(c: Colour) {
    c.Opaque? ==> c.css != "" && c.css != "transparent"
  }

  predicate AllValid(cells: seq<Colour>) {
    forall i :: 0 <= i < |cells| ==> ValidColour(cells[i])
  }

  /** The style string a cell shows for a colour (`style.backgroundColor`). */
  function Style(c: Colour): (s: string)
    ensures ValidColour(c) ==> (s == "" <==> c == Unset)
    ensures ValidColour(c) ==> (s == "transparent" <==> c == Transparent)
  {
    match c
    case Unset => ""
    case Transparent => "transparent"
    case Opaque(css) => css
  }

  /** The colour a cell holds after `style.backgroundColor = s`. */
  function FromStyle(s: string): (c: Colour)
    ensures ValidColour(c) && Style(c) == s
  {
    if s == "" then Unset
    else if s == "transparent" then Transparent
    else Opaque(s)
  }

  /** Writing back the style a valid colour shows leaves the colour as it was. */
  lemma StyleRoundTrip(c: Colour)
    requires ValidColour(c)
    ensures FromStyle(Style(c)) == c
  {
  }

  /** `style.backgroundColor || "transparent"`: an unset cell reads as transparent. */
  function Shown(c: Colour): (r: Colour)
    ensures r != Unset
    ensures c != Unset ==> r == c
    ensures ValidColour(c) ==> ValidColour(r)
  {
    if c == Unset then Transparent else c
  }

  /** `style.backgroundColor || null`: the value a snapshot or an export records. */
  function ToEntry(c: Colour): (e: Entry)
    ensures ValidColour(c) ==> Canonical(e) && FromEntry(e) == c
    ensures e == Null <==> c == Unset
  {
    match c
    case Unset => Null
    case Transparent => Text("transparent")
    case Opaque(css) => Text(css)
  }

  /** The colour a cell holds after `style.backgroundColor = e`; assigning
      `null` clears the style like the empty string does. */
  function FromEntry(e: Entry): (c: Colour)
    ensures ValidColour(c)
    ensures c == Unset <==> e == Null || e == Text("")
  {
    match e
    case Null => Unset
    case Text(s) => FromStyle(s)
  }

  /** Entries that a capture can produce: `||` turns the empty string into `null`. */
  predicate Canonical(e: Entry) {
    e != Text("")
  }

  lemma EntryRoundTrip(e: Entry)
    ensures ToEntry(FromEntry(e)) == e <==> Canonical(e)
  {
    if e.Text? && e.value != "" {
      assert Style(FromStyle(e.value)) == e.value;
    }
  }

  /** `cells.map(c => c.style.backgroundColor || null)`. */
  function Capture(cells: seq<Colour>): (snap: seq<Entry>)
    ensures |snap| == |cells|
    ensures forall i :: 0 <= i < |snap| && ValidColour(cells[i]) ==>
      Canonical(snap[i]) && FromEntry(snap[i]) == cells[i]
  {
    seq(|cells|, i requires 0 <= i < |cells| => ToEntry(cells[i]))
  }

  /** The cells after `entries.forEach((e, i) => cells[i].style.backgroundColor = e)`
      restricted to the indices that exist: entry i overwrites cell i, cells past the
      end of `entries` keep their colour and entries past the end of `cells` are
      not written. */
  function Overlay(cells: seq<Colour>, entries: seq<Entry>): (r: seq<Colour>)
    ensures |r| == |cells|
    ensures AllValid(cells) ==> AllValid(r)
  {
    seq(|cells|, i requires 0 <= i < |cells| =>
      if i < |entries| then FromEntry(entries[i]) else cells[i])
  }

  /** Restoring a capture of `cells` into any grid of the same length gives back `cells`. */
  lemma RestoreCapture(cells: seq<Colour>, other: seq<Colour>)
    requires AllValid(cells) && |other| == |cells|
    ensures Overlay(other, Capture(cells)) == cells
  {
    var r := Overlay(other, Capture(cells));
    forall i | 0 <= i < |cells| ensures r[i] == cells[i] {
      assert FromEntry(Capture(cells)[i]) == cells[i];
    }
  }

  /** Capturing a grid that a full-length canonical snapshot was restored into
      gives back the snapshot. */
  lemma CaptureRestore(snap: seq<Entry>, cells: seq<Colour>)
    requires |snap| == |cells|
    requires forall i :: 0 <= i < |snap| ==> Canonical(snap[i])
    ensures Capture(Overlay(cells, snap)) == snap
  {
    var r := Capture(Overlay(cells, snap));
    forall i | 0 <= i < |snap| ensures r[i] == snap[i] {
      EntryRoundTrip(snap[i]);
    }
  }
}
