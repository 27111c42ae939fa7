/** Definitions shared by the whole interface manager (include/wx/ifm/ifmdefs.h):
    the alignment, index, rect and size sentinels, the component type codes, and the
    four-sided dimensions record used for borders and margins. */
module IfmDefs {
  import opened Rects

  datatype Option<+T> = None | Some(value: T)

  /** Direction in which a component lays out its children (IFM_ALIGN_*). */
  datatype Alignment = AlignNone | Horizontal | Vertical {
    /** The integer value the header gives each alignment. */
    function Code(): int {
      match this
      case AlignNone => 0
      case Horizontal => 1
      case Vertical => 2
    }
  }

  /** Reads an alignment back from its integer value; only 0, 1 and 2 are alignments. */
  function AlignmentFromCode(c: int): (r: Option<Alignment>)
    ensures r.Some? <==> 0 <= c <= 2
  {
    if c == 0 then Some(AlignNone)
    else if c == 1 then Some(Horizontal)
    else if c == 2 then Some(Vertical)
    else None
  }

  /** The three alignment codes are distinct: decoding inverts encoding in both directions. */
  lemma AlignmentCodesRoundTrip(a: Alignment, c: int)
    ensures AlignmentFromCode(a.Code()) == Some(a)
    ensures AlignmentFromCode(c) == Some(a) ==> a.Code() == c
  {
  }

  /** IFM_DEFAULT_INDEX: "append at the end" when docking. */
  const DefaultIndex: int := -1

  /** IFM_DEFAULT_RECT: position (-1,-1) and size (-1,-1), meaning "let the manager choose". */
  const DefaultRect: Rect := Rect(-1, -1, -1, -1)

  /** IFM_DISABLE_STATUS_MESSAGES: the status pane number that turns status messages off. */
  const DisableStatusMessages: int := -1

  /** A width or height as a component stores it: a pixel count or one of the sentinels
      IFM_USE_CURRENT_VALUE (-1), IFM_NO_MAXIMUM (-2) and IFM_NO_MINIMUM (-3). */
  datatype SizeValue = Pixels(n: nat) | UseCurrentValue | NoMaximum | NoMinimum

  function EncodeSize(v: SizeValue): (c: int)
    ensures c < 0 <==> !v.Pixels?
  {
    match v
    case Pixels(n) => n
    case UseCurrentValue => -1
    case NoMaximum => -2
    case NoMinimum => -3
  }

  function DecodeSize(c: int): (r: Option<SizeValue>)
    ensures r.None? <==> c < -3
  {
    if c >= 0 then Some(Pixels(c))
    else if c == -1 then Some(UseCurrentValue)
    else if c == -2 then Some(NoMaximum)
    else if c == -3 then Some(NoMinimum)
    else None
  }

  /** The sentinels are distinct from each other and from every pixel count:
      decoding recovers every encoded size, and every decodable integer re-encodes to itself. */
  lemma SizeSentinelsRoundTrip(v: SizeValue, c: int)
    ensures DecodeSize(EncodeSize(v)) == Some(v)
    ensures DecodeSize(c) != None ==> EncodeSize(DecodeSize(c).value) == c
  {
  }

  /** Component type codes. IFM_COMPONENT_UNDEFINED (0) and IFM_COMPONENT_FLOATING_ROOT (-1) are
      fixed by the header; the container, panel and panel-tab types are numbers handed out
      by GetNewComponentType, which are distinct from each other and from the two fixed codes. */
  datatype ComponentType = Undefined | FloatingRoot | Container | Panel | PanelTab | OtherType(code: int)

  /** Widths of the borders or margins on each side of a component (wxIFMDimensions). */
  class Dimensions {
    var top: int
    var bottom: int
    var left: int
    var right: int

    /** A new record has all four sides 0. */
    constructor ()
      ensures top == 0 && bottom == 0 && left == 0 && right == 0
    {
      top, bottom, left, right := 0, 0, 0, 0;
    }

    /** Sets every side to `i`. */
    method Set(i: int)
      modifies this
      ensures top == i && left == i && right == i && bottom == i
    {
      top := i;
      left := i;
      right := i;
      bottom := i;
    }

    /** operator=: copies all four sides of `other` and returns this record. */
    method Assign(other: Dimensions) returns (r: Dimensions)
      modifies this
      ensures r == this
      ensures top == old(other.top) && bottom == old(other.bottom)
      ensures left == old(other.left) && right == old(other.right)
      ensures other.top == old(other.top) && other.bottom == old(other.bottom)
      ensures other.left == old(other.left) && other.right == old(other.right)
    {
      var t, b, l, rt := other.top, other.bottom, other.left, other.right;
      top := t;
      bottom := b;
      left := l;
      right := rt;
      r := this;
    }
  }
}
