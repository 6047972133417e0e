/**
 The user's custom palette: the list of swatches, the selected colour, the swatch the
 colour picker is editing (if any) and whether the picker is shown.
 */
module Palette {
  import opened Options
  import opened Color

  /** The swatches every user starts with. */
  const DefaultColors: seq<string> := ["#92B4F4", "#8CD3C5", "#669BBC", "#FFFFFF", "#16202A"]

  datatype Palette = Palette(colors: seq<string>, selected: string, editing: Option<nat>, pickerOpen: bool)

  const InitialPalette := Palette(DefaultColors, DefaultColors[0], None, false)

  /** The picker only ever edits a swatch that exists. */
  predicate EditingInRange(p: Palette) {
    p.editing.Some? ==> p.editing.value < |p.colors|
  }

  /** `handleColorClick(customColors[i], i)`: selects swatch i and opens the picker on it. */
  function SelectSwatch(p: Palette, i: nat): (r: Palette)
    requires i < |p.colors|
    ensures r.colors == p.colors && r.selected == p.colors[i]
    ensures r.editing == Some(i) && r.pickerOpen
    ensures EditingInRange(r)
  {
    p.(selected := p.colors[i], editing := Some(i), pickerOpen := true)
  }

  /** `handleColorChange`: with a swatch being edited, that swatch alone becomes the new
      colour, the palette keeps its length, and the new colour is selected; with none
      being edited nothing changes. */
  function PickColor(p: Palette, color: string): (r: Palette)
    requires EditingInRange(p)
    ensures p.editing.None? ==> r == p
    ensures p.editing.Some? ==> && |r.colors| == |p.colors|
                                && r.colors[p.editing.value] == color
                                && (forall j :: 0 <= j < |r.colors| && j != p.editing.value ==> r.colors[j] == p.colors[j])
                                && r.selected == color
    ensures r.editing == p.editing && r.pickerOpen == p.pickerOpen
    ensures EditingInRange(r)
  {
    match p.editing
    case None => p
    case Some(i) => p.(colors := p.colors[i := color], selected := color)
  }

  /** `addNewColor`, with the random draw `Math.floor(Math.random() * 16777215)` as the
      input `random`: a well-formed colour is appended after the existing swatches, which
      are kept, and it becomes both the selection and the swatch being edited. */
  function AddColor(p: Palette, random: nat): (r: Palette)
    requires random < 16777215
    ensures |r.colors| == |p.colors| + 1 && r.colors[..|p.colors|] == p.colors
    ensures r.colors[|p.colors|] == r.selected && r.selected == RandomColor(random)
    ensures IsHexColor(r.selected)
    ensures r.editing == Some(|r.colors| - 1) && r.pickerOpen
    ensures EditingInRange(r)
  {
    var color := RandomColor(random);
    var colors := p.colors + [color];
    p.(colors := colors, selected := color, editing := Some(|colors| - 1), pickerOpen := true)
  }

  /** `closeColorPicker`: hides the picker and stops editing. */
  function ClosePicker(p: Palette): (r: Palette)
    ensures r.colors == p.colors && r.selected == p.selected
    ensures r.editing.None? && !r.pickerOpen
    ensures EditingInRange(r)
  {
    p.(editing := None, pickerOpen := false)
  }
}
