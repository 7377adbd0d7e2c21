/** The drawing calls the layout makes on a reportlab canvas, recorded as an
    instruction stream in the order they are made. */
module Canvas {

  datatype Instr =
    | PlaceImage(path: string, x: real, y: real, width: real, height: real)  // drawImage
    | SetFont(font: string, size: nat)                                      // setFont
    | CentredText(x: real, y: real, text: string)                           // drawCentredString
    | SetDash(dash: nat, gap: nat)                                          // setDash(dash, gap)
    | ResetDash                                                             // setDash() back to solid
    | Line(x1: real, y1: real, x2: real, y2: real)                          // line
    | ShowPage                                                              // showPage
    | Save                                                                  // save

  /** Instructions that draw part of an image cell: the image or its caption. */
  predicate IsCellDrawing(i: Instr) {
    i.PlaceImage? || i.SetFont? || i.CentredText?
  }

}
