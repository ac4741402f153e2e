/** Conventions both entry points share when they talk to OpenCV: how the
    `--source` argument becomes a capture source, and how a `waitKey` code is
    recognised as the quit key. */
module Capture {

  /** What is handed to the capture: a camera index, or a path / pipeline
      descriptor passed through as text. */
  datatype Source = Camera(index: nat) | Descriptor(text: string)

  /** The argument "0" selects camera 0; any other argument is handed to
      the capture as it is. */
  function ResolveSource(arg: string): (src: Source)
    ensures src.Camera? <==> arg == "0"
    ensures src.Camera? ==> src.index == 0
    ensures src.Descriptor? ==> src.text == arg
  {
    if arg == "0" then Camera(0) else Descriptor(arg)
  }

  /** The source as the start-up message prints it: the camera as its
      index, a descriptor as its text. */
  function SourceText(src: Source): string
    requires src.Camera? ==> src.index == 0
  {
    match src
    case Camera(_) => "0"
    case Descriptor(text) => text
  }

  /** Resolving loses nothing: printing the resolved source gives back the
      argument, and every source resolution can produce is recovered from
      its text. The one text that is never passed through is "0". */
  lemma ResolveSourceRoundTrip(arg: string, src: Source)
    requires src == Camera(0) || (src.Descriptor? && src.text != "0")
    ensures SourceText(ResolveSource(arg)) == arg
    ensures ResolveSource(SourceText(src)) == src
    ensures ResolveSource(arg) != Descriptor("0")
  {
  }

  /** Code point of 'q'. */
  const QuitKey: int := 'q' as int

  /** `key & 0xFF` on Python's unbounded integers. Python's `&` treats a
      negative operand as an infinite two's-complement word, so the mask
      keeps the residue modulo 256 for every sign; Dafny's `%` is Euclidean
      and yields the same value. */
  function LowByte(key: int): (b: int)
    ensures 0 <= b < 256
    ensures (key - b) % 256 == 0
  {
    key % 256
  }

  /** A key code quits when its low byte is the code point of 'q'. */
  predicate IsQuitKey(key: int) {
    LowByte(key) == QuitKey
  }

  /** `waitKey` reports -1 when no key was pressed, which never quits; any
      code whose low byte is 'q' does, whatever modifier bits sit above it. */
  lemma QuitKeyCodes(key: int)
    ensures !IsQuitKey(-1)
    ensures IsQuitKey(key) <==> exists m :: key == 256 * m + QuitKey
  {
    if IsQuitKey(key) {
      assert key == 256 * (key / 256) + QuitKey;
    }
  }
}
