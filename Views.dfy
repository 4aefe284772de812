// The overlay Menu: a cyclic selection over its labels, the active flag, and
// the size and position computed from the number of labels. Drawing is not
// part of this model; the label font's row height is given to the constructor.
module Views {
  import opened Wrappers
  import opened JavaString

  /** The index Menu.selectNext moves to: one further, back to 0 past the end. */
  function NextIndex(i: int, length: int): int {
    if i + 1 > length - 1 then 0 else i + 1
  }

  /** The index Menu.selectPrevious moves to: one back, to the end before 0. */
  function PreviousIndex(i: int, length: int): int {
    if i - 1 < 0 then length - 1 else i - 1
  }

  /** Both moves stay on a label, and each undoes the other. */
  lemma SelectionCycles(i: int, length: int)
    requires 0 <= i < length
    ensures 0 <= NextIndex(i, length) < length && 0 <= PreviousIndex(i, length) < length
    ensures NextIndex(i, length) == (if i == length - 1 then 0 else i + 1)
    ensures PreviousIndex(i, length) == (if i == 0 then length - 1 else i - 1)
    ensures PreviousIndex(NextIndex(i, length), length) == i
    ensures NextIndex(PreviousIndex(i, length), length) == i
  {
  }

  /** The index after k calls of selectNext. */
  function Advance(i: int, length: int, k: nat): int {
    if k == 0 then i else NextIndex(Advance(i, length, k - 1), length)
  }

  /** k steps forward (k at most the number of labels) move k places, wrapping
      once past the end, so after one step per label the selection is back
      where it started. */
  lemma {:induction false} AdvanceWraps(i: int, length: int, k: nat)
    requires 0 <= i < length && k <= length
    ensures Advance(i, length, k) == (if i + k < length then i + k else i + k - length)
    ensures k == length ==> Advance(i, length, k) == i
  {
    if k > 0 {
      AdvanceWraps(i, length, k - 1);
    }
  }

  /** Menu.calculateSize: the menu holds a title row and one row per label and
      is centred vertically, halving with Java's int division. */
  function MenuHeight(labelCount: int, rowHeight: int): int {
    (labelCount + 1) * rowHeight
  }

  function MenuTop(screenHeight: int, height: int): int {
    Div(screenHeight, 2) - Div(height, 2)
  }

  /** On a screen at least as tall as the menu, the menu is centred to within
      one pixel and starts inside the screen. */
  lemma MenuCentred(screenHeight: int, height: int)
    requires 0 <= height <= screenHeight
    ensures screenHeight - 1 <= 2 * MenuTop(screenHeight, height) + height <= screenHeight + 1
    ensures 0 <= MenuTop(screenHeight, height) && MenuTop(screenHeight, height) + height <= screenHeight + 1
  {
    DivByTwo(screenHeight);
    DivByTwo(height);
  }

  class Menu {
    var labels: array?<string>
    var screenWidth: int
    var screenHeight: int
    var top: int
    var height: int
    var selectedIndex: int
    var active: bool
    var title: string
    var rowHeight: int
    var alignLeft: bool
    var rowsPerScreen: int

    /** The display settings that only the constructor sets: the screen, the
        row height, the title and the alignment. */
    function Layout(): (int, int, int, int, string, bool)
      reads this
    {
      (screenWidth, screenHeight, rowHeight, rowsPerScreen, title, alignLeft)
    }

    /** The selection is on a label whenever there is one. */
    ghost predicate Valid()
      reads this
    {
      labels != null && labels.Length > 0 ==> 0 <= selectedIndex < labels.Length
    }

    /** new Menu(labels, actions, screenWidth, screenHeight): inactive,
        titled "Menu", centre-aligned, on the first label, sized for the
        labels. */
    constructor (labels: array?<string>, screenWidth: int, screenHeight: int, rowHeight: int)
      requires rowHeight > 0
      ensures Valid()
      ensures this.labels == labels && this.screenWidth == screenWidth && this.screenHeight == screenHeight
      ensures selectedIndex == 0 && !active && title == "Menu" && !alignLeft
      ensures this.rowHeight == rowHeight && rowsPerScreen == Div(screenHeight, rowHeight)
      ensures labels != null ==> height == MenuHeight(labels.Length, rowHeight) && top == MenuTop(screenHeight, height)
      ensures labels == null ==> height == 0 && top == 0
    {
      this.labels := labels;
      this.screenWidth := screenWidth;
      this.screenHeight := screenHeight;
      selectedIndex := 0;
      active := false;
      title := "Menu";
      alignLeft := false;
      this.rowHeight := rowHeight;
      rowsPerScreen := Div(screenHeight, rowHeight);
      var h, t := 0, 0;
      if labels != null {
        h := (labels.Length + 1) * rowHeight;
        t := Div(screenHeight, 2) - Div(h, 2);
      }
      height := h;
      top := t;
    }

    /** Menu.selectNext. */
    method SelectNext()
      requires labels != null
      requires Valid()
      modifies this
      ensures labels == old(labels) && active == old(active) && top == old(top) && height == old(height)
      ensures Layout() == old(Layout())
      ensures Valid()
      ensures selectedIndex == NextIndex(old(selectedIndex), labels.Length)
    {
      selectedIndex := selectedIndex + 1;
      if selectedIndex > labels.Length - 1 {
        selectedIndex := 0;
      }
    }

    /** Menu.selectPrevious. */
    method SelectPrevious()
      requires labels != null
      requires Valid()
      modifies this
      ensures labels == old(labels) && active == old(active) && top == old(top) && height == old(height)
      ensures Layout() == old(Layout())
      ensures Valid()
      ensures selectedIndex == PreviousIndex(old(selectedIndex), labels.Length)
    {
      selectedIndex := selectedIndex - 1;
      if selectedIndex < 0 {
        selectedIndex := labels.Length - 1;
      }
    }

    /** Menu.getSelectedLabel: null without labels, the selected label
        otherwise (an index past the labels throws). A valid menu with labels
        always answers with a label. */
    method GetSelectedLabel() returns (r: Result<Option<string>, Exception>)
      ensures labels == null ==> r == Ok(None)
      ensures labels != null && 0 <= selectedIndex < labels.Length ==> r == Ok(Some(labels[selectedIndex]))
      ensures labels != null && !(0 <= selectedIndex < labels.Length) ==> r == Err(ArrayIndexOutOfBounds)
      ensures Valid() && labels != null && labels.Length > 0 ==> r.Ok? && r.value.Some? && r.value.value in labels[..]
    {
      if labels == null {
        return Ok(None);
      }
      if !(0 <= selectedIndex < labels.Length) {
        return Err(ArrayIndexOutOfBounds);
      }
      r := Ok(Some(labels[selectedIndex]));
    }

    /** Menu.activate: shown, on the first label. */
    method Activate()
      requires Valid()
      modifies this
      ensures Valid()
      ensures active && selectedIndex == 0
      ensures labels == old(labels) && top == old(top) && height == old(height)
      ensures Layout() == old(Layout())
    {
      active := true;
      selectedIndex := 0;
    }

    /** Menu.deactivate: hidden; the selection is kept. */
    method Deactivate()
      requires Valid()
      modifies this
      ensures Valid()
      ensures !active && selectedIndex == old(selectedIndex)
      ensures labels == old(labels) && top == old(top) && height == old(height)
      ensures Layout() == old(Layout())
    {
      active := false;
    }

    /** Menu.calculateSize: with labels, the height and top that centre the
        menu; without them, nothing changes. */
    method CalculateSize()
      modifies this
      ensures labels != null ==> height == MenuHeight(labels.Length, rowHeight) && top == MenuTop(screenHeight, height)
      ensures labels == null ==> height == old(height) && top == old(top)
      ensures labels == old(labels) && selectedIndex == old(selectedIndex) && active == old(active)
      ensures Layout() == old(Layout())
    {
      if labels != null {
        height := (labels.Length + 1) * rowHeight;
        top := Div(screenHeight, 2) - Div(height, 2);
      }
    }

    /** Menu.setLabels: new labels, resized, back on the first label. */
    method SetLabels(labels: array?<string>)
      modifies this
      ensures Valid()
      ensures this.labels == labels && selectedIndex == 0 && active == old(active)
      ensures Layout() == old(Layout())
      ensures labels != null ==> height == MenuHeight(labels.Length, rowHeight) && top == MenuTop(screenHeight, height)
      ensures labels == null ==> height == old(height) && top == old(top)
    {
      this.labels := labels;
      CalculateSize();
      selectedIndex := 0;
    }

    /** Menu.setLabel: replaces one label in place and nothing else. */
    method SetLabel(index: int, text: string)
      requires labels != null && 0 <= index < labels.Length
      modifies labels
      ensures labels[..] == old(labels[..])[index := text]
    {
      labels[index] := text;
    }
  }
}
