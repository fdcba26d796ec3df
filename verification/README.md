# Verified model of the CPEN 311 frame-buffer software, song player and RC4 decryptor

The project models three parts of the repository.

* **Drawing** (the Nios II program of DDS-Modulation). Images are converted between pixel formats and copied
  into frame memory with clipping and a transparent colour; anti-aliased text is blended, glyph by glyph, with
  the picture behind it; a frame reader shows one of two frame buffers while the other is drawn into, and a
  whole frame can be copied by a chain of DMA descriptors. Memory is a flat array of bytes, addresses are
  computed as the program computes them, words are little-endian (system.h:64), and bit operations are done on
  bit-vectors of the widths the program uses.
* **Song playback.** One MicroC/OS-II thread writes three flags one by one, another of higher priority reads
  them; every interleaving is a run of a state machine.
* **RC4 key search** (the SystemVerilog of RC4-Decryptor). Four state machines share two clocked memories under
  a controller that tries all 22-bit keys; every register is modelled clock by clock.

How it is organised:

| file | content |
|---|---|
| Raster.dfy | rectangles of pixels in flat memory; the walk that draws them and what a memory looks like afterwards |
| Words.dfy | little-endian words, word stores, `memcpy` |
| GimpBmp.dfy, DrawGimps.dfy | the format converters, image loading, the image copies and display functions |
| VipFr.dfy, SgDma.dfy | the frame reader, its device registers and its state machine; the DMA descriptor chain |
| Blending.dfy, Channels.dfy | one blended channel as arithmetic; colour channels inside pixels |
| TextLayout.dfy, SimpleText.dfy, TextTheorems.dfy | where glyphs go, drawing them, and what the result looks like |
| Playback.dfy | the two threads of the player |
| Rc4.dfy, DecryptorMachines.dfy | RC4 itself, the registers of the decryptor |
| Clocks.dfy, Handshakes.dfy | runs of the decryptor; how its controller starts the machines and waits for them, after any use of the buttons |
| KeySearch.dfy, StartButton.dfy | what each machine and the search of an idle decryptor do; what pressing start leads to from any state |

Every drawing method is an imperative loop over a byte array. It is proved equal to a walk, `Raster.Paint`, and
against `Raster.Painted`, which says for each pixel of a rectangle what it shows and that no other byte has
changed. `dafny verify dfyconfig.toml` checks the whole project.

What the methods require of their callers is what the program takes for granted: images have all their pixels,
what is drawn lies inside the memory (text: inside the frame), characters are printable, space, tab or newline,
alpha maps have one entry per pixel of their box, and the three functions that load images get three- or
four-byte pixels.

Where the program does not do what its documentation, names or parameters suggest, the model follows the program:

* the fit limits of `DispIMAGE_fit` are inclusive, so it shows one row and one column more than asked for;
* `DispIMAGE` ignores its position;
* four-byte images, documented as RGBA, are shown with red and blue exchanged by the 32-bit path, while the
  16-bit converter takes the first byte as red (`DrawGimps.ShownAsDocumented` says exactly when this shows);
* `DRAW_EraseScreen` fills with the low byte of its colour (`VipFr.ErasedColour`);
* images go to the frame that is on display, text and erasing to the other one, and the program makes both the
  same by passing one address twice; `VipFr.DrawsAreInvisibleIffApart` states what double buffering then loses;
* the top byte of a text pixel at 32 bits is never set by the program; the model draws an arbitrary byte there;
* every cycle of playback sends one block more than the song has (`Playback.ExtraBlock`);
* the reset button of the decryptor resets none of the four machines: pressing start too soon after it can hang
  the decryptor for good (`Handshakes.RunsThatHang`) or spoil the attempt with key 0 (`StartButton.RunThatSpoils`);
  `StartButton.AnswersIff` and `StartButton.EveryMessage` say exactly when the search is right.

## Model

| member | source | states |
|---|---|---|
| Raster.PaintPaints | DDS-Modulation/software/lab5/graphic_lib/gimp_bmp.c:112-124 | the row-by-row, column-by-column walk shared by all drawing loops leaves every pixel of the rectangle as stored and every other byte untouched, for any line width and pixel size |
| Raster.PaintLast | DDS-Modulation/software/lab5/graphic_lib/gimp_bmp.c:112-124 | a pixel shows what was stored at its place last, also when the rows of a wide rectangle run into each other |
| Raster.PaintAhead | DDS-Modulation/software/lab5/graphic_lib/simple_text.c:288-305 | a pixel the walk has not reached yet still holds its original bytes, so reading it just before writing it reads the old picture |
| Raster.PaintedUnique | DDS-Modulation/software/lab5/graphic_lib/gimp_bmp.c:112-124 | the old memory and the pixels determine the new memory: two ways of drawing the same pixels agree on every byte |
| Raster.PaintedTwice | DDS-Modulation/software/lab5/graphic_lib/draw_gimps.c:80-102 | drawing the same pixels, keyed or clipped ones included, a second time changes nothing |
| Raster.PaintTwice | DDS-Modulation/software/lab5/graphic_lib/draw_gimps.c:80-102 | the same for a walk whose rows run into each other |
| Raster.PaintedCommute | DDS-Modulation/software/lab5/graphic_lib/draw_gimps.c:80-102 | drawings that touch no common byte can be done in either order |
| Raster.PaintedOver | DDS-Modulation/software/lab5/graphic_lib/simple_text.c:27-61 | drawing over a drawing shows the later pixels where there are some and the earlier ones elsewhere |
| GimpBmp.CopyPixMap | DDS-Modulation/software/lab5/graphic_lib/gimp_bmp.c:96-319 | each of the six converters, for every height, active width and line widths, is the row-by-row walk of its conversion; with lines no shorter than the active width the pixel at (row, column) becomes the conversion of the source pixel at (row, column), and padding and everything past the last row stay as they were |
| GimpBmp.CopyPixel | DDS-Modulation/software/lab5/graphic_lib/gimp_bmp.c:118-120 | the six loop bodies (word copy, byte copies, word shifts, reversed byte stores with an 0xff byte, byte masks) store one converted pixel and advance both addresses by whole pixels |
| GimpBmp.ConvertedBytes | DDS-Modulation/software/lab5/graphic_lib/gimp_bmp.c:96-319 | what each converter leaves at every pixel, byte by byte: words whole, the first three of four bytes, three bytes reversed and 0xff, three bytes as they are, or 16 bits of the top 5, 6 and 5 bits |
| GimpBmp.PackedByShifts | DDS-Modulation/software/lab5/graphic_lib/gimp_bmp.c:190-197 | cutting a 16-bit pixel out of a little-endian word by shifts gives the top 5, 6 and 5 bits of the first three bytes |
| GimpBmp.PackedByMasks | DDS-Modulation/software/lab5/graphic_lib/gimp_bmp.c:306-313 | masking and shifting the three bytes gives the same 16-bit pixel |
| GimpBmp.ConversionDiagramCommutes | DDS-Modulation/software/lab5/graphic_lib/gimp_bmp.c:128-203 | converting 32 to 16 bits directly or through 24 bits, with intermediate lines no shorter than the picture's, leaves the same buffer when the buffers started equal, for destination lines of any width |
| GimpBmp.ConvertedAlike | DDS-Modulation/software/lab5/graphic_lib/gimp_bmp.c:128-203 | and whatever the buffers held, both show the same pixels where the destination lines hold the picture's |
| GimpBmp.RoundTripReverses | DDS-Modulation/software/lab5/graphic_lib/gimp_bmp.c:128-243 | 24 to 32 bits and back reverses the three channels of every pixel |
| GimpBmp.TwoRoundTripsRestore | DDS-Modulation/software/lab5/graphic_lib/gimp_bmp.c:128-243 | doing so twice restores every pixel of the image, through buffers of any line widths |
| GimpBmp.LoadGimpBmp | DDS-Modulation/software/lab5/graphic_lib/gimp_bmp.c:5-94 | the loaded bitmap holds the converted image in a new buffer; its dimensions are the image's truncated to 16 bits, equal to them exactly when they are at most 32767; for an unsupported pair of formats the buffer keeps what it was allocated with |
| GimpBmp.LoadedBytes | DDS-Modulation/software/lab5/graphic_lib/gimp_bmp.c:28-90 | every pixel of a loaded image byte by byte: at 32 bits a three-byte pixel is `p2 p1 p0 ff` and a four-byte pixel itself, at 24 bits it is its first three bytes, at 16 bits their top 5, 6 and 5 bits |
| DrawGimps.CopyImageClipped | DDS-Modulation/software/lab5/graphic_lib/draw_gimps.c:32-105 | inside the inclusive limits every pixel whose 24-bit colour is not the transparent one is stored at its place, in the order of the walk; with a visible part no wider than the frame each of them shows, clipped and transparent pixels and all other bytes are untouched, and the source is read on regardless |
| DrawGimps.ClippedBytes | DDS-Modulation/software/lab5/graphic_lib/draw_gimps.c:45-97 | byte by byte: source pixel (r, c) is stored, with its fourth byte cleared, at word `(r+_y)*dest_width+(c+_x)` if `r <= h_fit`, `c <= w_fit` and it is not the transparent colour; otherwise the word is unchanged |
| DrawGimps.CopyImageRows | DDS-Modulation/software/lab5/graphic_lib/draw_gimps.c:14-30 | copying whole rows leaves exactly the memory the 32-bit pixel converter leaves, for every size and line width |
| DrawGimps.RowsAreWords | DDS-Modulation/software/lab5/graphic_lib/draw_gimps.c:14-30 | meeting the converter's specification determines the memory, so the row copy and `copy_pix_map_32_to_32` agree byte for byte |
| DrawGimps.ImpossibleKeyIsNoKey | DDS-Modulation/software/lab5/graphic_lib/draw_gimps.c:68-105 | a transparent colour above 0xffffff makes the transparent copy equal the plain one, for every image and frame |
| DrawGimps.DisjointBlitsCommute | DDS-Modulation/software/lab5/graphic_lib/draw_gimps.c:32-105 | images drawn into disjoint rectangles of one frame can be drawn in either order |
| DrawGimps.LoadedAndBlitted | DDS-Modulation/software/lab5/graphic_lib/draw_gimps.c:205-221 | loading at 32 bits and then blitting draws the image itself: `b0<<16|b1<<8|b2` for three-byte and `b2<<16|b1<<8|b0` for four-byte pixels |
| DrawGimps.PictureShows | DDS-Modulation/software/lab5/graphic_lib/draw_gimps.c:93-97 | the frame's word under every pixel of a placed image, with a visible part no wider than the frame: its colour when inside the limits and not transparent, the old word otherwise |
| DrawGimps.LastPixelShows | DDS-Modulation/software/lab5/graphic_lib/draw_gimps.c:93-97 | with a visible part wider than the frame, the last visible pixel stored at a place is the one that shows |
| DrawGimps.ElsewhereKept | DDS-Modulation/software/lab5/graphic_lib/draw_gimps.c:93-97 | a byte at which no visible pixel is stored keeps its old value, whatever the widths |
| DrawGimps.ShownAsDocumented | DDS-Modulation/software/lab5/graphic_lib/gimp_bmp.h:7 | four-byte pixels are shown in the colour their documented order RGBA means exactly when red equals blue; three-byte pixels always are |
| DrawGimps.DispImage | DDS-Modulation/software/lab5/graphic_lib/draw_gimps.c:109-147 | the image appears in the top left corner of the frame indexed by the display flag, whatever position was passed, as its conversion to 32 bits would; inside a frame apart from the other it is seen at once, and the next swap takes it off the screen unless the background was reserved |
| DrawGimps.DispImageFit | DDS-Modulation/software/lab5/graphic_lib/draw_gimps.c:149-189 | rows 0 to h and columns 0 to w, both included, of the image appear at (x, y) of the displayed frame; seen at once, as above |
| DrawGimps.DispImageFromGimp | DDS-Modulation/software/lab5/graphic_lib/draw_gimps.c:191-231 | the whole image appears at (x, y) of the displayed frame except the pixels of the transparent colour; seen at once, as above |
| DrawGimps.ImagePlaced | DDS-Modulation/software/lab5/graphic_lib/draw_gimps.c:149-231 | for a visible part inside the frame: the word at row `r+y` and column `c+x` is the colour of the image's pixel (r, c), read from the image's own bytes, if it is inside the limits and not transparent, and the old word otherwise |
| DrawGimps.ImageCopied | DDS-Modulation/software/lab5/graphic_lib/draw_gimps.c:109-147 | `DispIMAGE` leaves at row r and column c of the frame the image's four bytes, or its three bytes reversed and 0xff |
| VipFr.FrameReader.Init | DDS-Modulation/software/lab5/vip_fr.c:21-65 | the registers and the driver agree on bases, size and displayed frame, and the device runs |
| VipFr.FrameReader.ActiveDrawFrame | DDS-Modulation/software/lab5/vip_fr.c:76-80 | is the swap step of the state machine, on fields, registers and memory |
| VipFr.FrameReader.ReserveBackground | DDS-Modulation/software/lab5/vip_fr.c:122-141 | is the reserve step, by processor copy or by DMA; with DMA and no device nothing is copied |
| VipFr.FrameReader.EraseScreen | DDS-Modulation/software/lab5/vip_fr.c:82-84 | fills exactly the draw frame, with the low byte of the colour; with the frames apart the screen does not change |
| VipFr.ErasedByte | DDS-Modulation/software/lab5/vip_fr.c:82-84 | every byte of the erased frame is the low byte of the colour |
| VipFr.ErasedColour | DDS-Modulation/software/lab5/vip_fr.c:82-84 | erasing shows the colour asked for exactly when its four bytes are equal |
| VipFr.RunKeepsFramesStraight | DDS-Modulation/software/lab5/vip_fr.c:71-80 | over every run of swaps, reserves and draws the device's registers select the frame the driver takes to be displayed, the other one is drawn into, and the parity of the swaps tells which |
| VipFr.RunKeepsRegisters | DDS-Modulation/software/lab5/vip_fr.c:76-80 | no run changes a register other than the one that selects the frame, so the device stays programmed for both frames |
| VipFr.ScreenChangesOnlyOnSwap | DDS-Modulation/software/lab5/vip_fr.c:71-80 | with frames apart, no run without a swap changes what the device scans out |
| VipFr.DrawsAreInvisibleIffApart | DDS-Modulation/software/lab5/hello_ucosii.c:343-344 | draws leave the screen alone for certain if and only if the two frames do not overlap; the program passes the same base twice |
| VipFr.DrawSwapReserve | DDS-Modulation/software/lab5/vip_fr.c:122-141 | drawing any picture, swapping and reserving shows exactly that picture and leaves both frames holding it |
| VipFr.DrawingIsARun | DDS-Modulation/software/lab5/vip_fr.c:71-75 | whatever a drawing function leaves in the draw frame is what a run of draws leaves |
| VipFr.DrawnBehind | DDS-Modulation/software/lab5/vip_fr.c:71-80 | with the frames apart it is not seen before the swap, seen after it, and in both frames after reserving |
| VipFr.DrawnOnDisplay | DDS-Modulation/software/lab5/vip_fr.c:71-80 | what is drawn on the displayed frame is seen at once and leaves the draw frame alone; a swap takes it off the screen unless the background was reserved first |
| SgDma.ChainTilesTheRegion | DDS-Modulation/software/lab5/vip_fr.c:162-178 | the chain has `(n+32767)/32768` blocks, beginning at the two given addresses, none empty or above 32768 bytes, contiguous in source and destination, `n` bytes in all, and only the last has no link |
| SgDma.BuildChain | DDS-Modulation/software/lab5/vip_fr.c:162-178 | the splitter loop builds that chain and never runs past the descriptors it allocated |
| SgDma.ExecuteCompletes | DDS-Modulation/software/lab5/vip_fr.c:180-181 | following the links from block i completes the copy its first i blocks began |
| SgDma.MyMemcpy | DDS-Modulation/software/lab5/vip_fr.c:146-185 | the DMA copy leaves the same memory as `memcpy` for every positive size; without a device it does nothing |
| Blending.BlendBetween | DDS-Modulation/software/lab5/graphic_lib/simple_text.c:236-238 | a blended channel lies between font and background; alpha 0 gives the background and alpha 255 the font |
| Blending.BlendMonotone | DDS-Modulation/software/lab5/graphic_lib/simple_text.c:236-238 | more alpha moves the channel towards the font colour |
| Blending.BrighterFallsToFont | DDS-Modulation/software/lab5/graphic_lib/simple_text.c:226-238 | redrawn on a clear background with alpha at least 1, a brighter channel falls by at least one per redraw and is the font colour after at most the difference |
| Blending.DarkerRises | DDS-Modulation/software/lab5/graphic_lib/simple_text.c:226-238 | a darker channel never falls or overshoots, and stands still exactly when `alpha*(font-current) < 255` |
| Blending.DarkerSettles | DDS-Modulation/software/lab5/graphic_lib/simple_text.c:226-238 | it has settled after as many redraws as the difference, and reaches the font colour if and only if alpha is 255 |
| Blending.RedrawEnds | DDS-Modulation/software/lab5/graphic_lib/simple_text.c:226-238 | with alpha at least 1 every channel is from the 255th redraw on at its settled level: the font colour, or for darker channels `font - 254/alpha`, or the first level itself if that is no further away |
| Channels.SeparateColorChannels | DDS-Modulation/software/lab5/graphic_lib/simple_text.c:81-110 | the channels are those the bytes hold at depths 16, 24 and 32, and black at any other depth |
| Channels.MergeColorChannels | DDS-Modulation/software/lab5/graphic_lib/simple_text.c:125-152 | the bytes stored hold the channels; three zero bytes at an unsupported depth |
| Channels.ReadPixel | DDS-Modulation/software/lab5/graphic_lib/simple_text.c:167-208 | the channels are those the pixel holds, by word shifts at 32 and 16 bits and by bytes at 24 |
| Channels.HeldChannelsUnique | DDS-Modulation/software/lab5/graphic_lib/simple_text.c:81-208 | a pixel holds one set of channels, so all ways of reading it agree |
| Channels.MergedComesBack | DDS-Modulation/software/lab5/graphic_lib/simple_text.c:125-208 | merged channels are read back unchanged by both readers at every depth, whatever the fourth byte of a 32-bit pixel is |
| Channels.SplitMergeRestores | DDS-Modulation/software/lab5/graphic_lib/simple_text.c:81-152 | splitting a stored colour and merging it restores its bytes |
| Channels.ClippingIsIdle | DDS-Modulation/software/lab5/graphic_lib/simple_text.c:241-254 | for channels of the display's depth the clipping at 16, 24 and 32 bits never changes a blended value |
| Channels.SelfBlend | DDS-Modulation/software/lab5/graphic_lib/simple_text.c:236-238 | a colour blended with itself is itself, whatever the alpha |
| Channels.MixIs | DDS-Modulation/software/lab5/graphic_lib/simple_text.c:236-238 | each channel is `(font*alpha + background*(255-alpha))/255` of the same channel of both |
| TextLayout.GlyphsApart | DDS-Modulation/software/lab5/graphic_lib/simple_text.c:24-61 | the boxes of all glyphs and filled blanks of a text are pairwise disjoint, if nothing the text sets before its last newline is taller than a line |
| TextLayout.TallGlyphsOverlap | DDS-Modulation/software/lab5/graphic_lib/simple_text.c:29-33 | a glyph taller than a line overlaps itself on the next line, so that condition is needed |
| TextLayout.BlankAdds | DDS-Modulation/software/lab5/graphic_lib/simple_text.c:36-54 | on a background that is not clear a space adds one box of a '-' at the cursor and a tab TAB_SPACING adjacent ones |
| TextLayout.VisiblePlaced | DDS-Modulation/software/lab5/graphic_lib/simple_text.c:55-59 | a visible character places its own glyph in the text's colour, at the margin plus the length of its line so far and one '|' height down per newline |
| TextLayout.PlacedInOrder | DDS-Modulation/software/lab5/graphic_lib/simple_text.c:27-61 | a text places exactly the glyphs of its visible characters and the boxes of its blanks, in their order |
| TextLayout.StringPixelLength | DDS-Modulation/software/lab5/graphic_lib/simple_text.c:318-337 | is the sum of the advances of the characters, for texts without tabs and newlines |
| TextLayout.LengthOfConcatenation | DDS-Modulation/software/lab5/graphic_lib/simple_text.c:318-337 | lengths add up over concatenation |
| TextLayout.LengthOfCharacter | DDS-Modulation/software/lab5/graphic_lib/simple_text.c:325-335 | one character is as long as its own glyph is wide, a space as a '-', a tab as two |
| TextLayout.CursorEnds | DDS-Modulation/software/lab5/graphic_lib/simple_text.c:24-61 | for every printable text, tabs included, the printing cursor ends at the margin plus the length of the last line, one line height down per newline |
| TextLayout.MeasuredIsTravelled | DDS-Modulation/software/lab5/graphic_lib/simple_text.c:24-61 | printing one more line of text moves the cursor by exactly its length and leaves it on its row, whatever was printed before |
| SimpleText.VidSetPixel | DDS-Modulation/software/lab5/graphic_lib/simple_graphics.c:299-325 | stores the low 2, 3 or 4 bytes of the colour at one pixel and nothing else; nothing at an unsupported depth |
| SimpleText.ReadFromFrame | DDS-Modulation/software/lab5/graphic_lib/simple_text.c:167-208 | the channels of the frame's pixel; black at an unsupported depth |
| SimpleText.AlphaBlending | DDS-Modulation/software/lab5/graphic_lib/simple_text.c:219-261 | the font's channels blended with the frame's pixel on a clear background and with the background colour otherwise; the font's channels themselves at an unsupported depth |
| SimpleText.PrintChar | DDS-Modulation/software/lab5/graphic_lib/simple_text.c:273-308 | every pixel of the glyph's box gets the font colour blended by its own alpha entry with the old picture or the background; all other bytes, and at an unsupported depth all bytes, are untouched |
| SimpleText.GlyphDrawn | DDS-Modulation/software/lab5/graphic_lib/simple_text.c:288-305 | a drawn glyph shows its ink at every pixel of its box, and nothing else of the memory has changed |
| SimpleText.PrintString | DDS-Modulation/software/lab5/graphic_lib/simple_text.c:18-63 | the memory is the old one with the glyphs and filled blanks of the laid-out text drawn one after the other, for every printable string and font and every depth; with the frames apart the screen does not change |
| SimpleText.DrawnInside | DDS-Modulation/software/lab5/graphic_lib/simple_text.c:18-63 | text, overlapping or not, changes no byte outside the draw frame, and none at all at an unsupported depth |
| SimpleText.PrintedBehind | DDS-Modulation/software/lab5/graphic_lib/simple_text.c:18-63 | printing is a run of the screen's state machine: with the frames apart it is not seen before a swap, and a swap shows it |
| SimpleText.DisjointGlyphsDrawn | DDS-Modulation/software/lab5/graphic_lib/simple_text.c:27-61 | glyphs that do not overlap, drawn one after the other, each show the blend with the picture before any of them was drawn |
| TextTheorems.PrintedText | DDS-Modulation/software/lab5/graphic_lib/simple_text.c:18-63 | closed form of a printed string, for texts that set nothing taller than a line before their last newline: every covered pixel has the channels of its one glyph, every other pixel and every byte outside the frame is as it was |
| TextTheorems.CharacterShows | DDS-Modulation/software/lab5/graphic_lib/simple_text.c:55-59 | every pixel of every visible character shows the text's colour blended, by the character's own alpha map read row by row, with the old picture or the background colour |
| TextTheorems.LayersShow | DDS-Modulation/software/lab5/graphic_lib/simple_text.c:18-63 | for every text and font, overlapping or not: each pixel has the channels that blending every glyph over it in turn gives |
| TextTheorems.TextPixelIs | DDS-Modulation/software/lab5/graphic_lib/simple_text.c:27-61 | no pixel belongs to two glyphs, so the order of drawing does not show |
| TextTheorems.BlankFills | DDS-Modulation/software/lab5/graphic_lib/simple_text.c:36-54 | the box of a space, and each of the TAB_SPACING boxes of a tab, is filled with the opaque background colour whatever the alpha map of '-' holds |
| TextTheorems.RedrawnChannels | DDS-Modulation/software/lab5/graphic_lib/simple_text.c:226-305 | over any number of redraws of a glyph on a clear background each channel in the frame follows the redraw recurrence |
| TextTheorems.RedrawSettles | DDS-Modulation/software/lab5/graphic_lib/simple_text.c:226-305 | from the 255th redraw on brighter channels are the font colour and darker ones `font - 254/alpha`, or as they were if no further away, and no redraw changes any of them again |
| Playback.Player.Task1Pass | DDS-Modulation/software/lab5/hello_ucosii.c:160-173 | is the pass step: send, advance, wrap, hold or rewind |
| Playback.Player.Task2Step | DDS-Modulation/software/lab5/hello_ucosii.c:275-332 | single flag writes in program order, and the saturating rate changes, are the other steps |
| Playback.StartsSilent | DDS-Modulation/software/lab5/hello_ucosii.c:146-155 | the player starts with no flag set, at address 0, at 44000 samples a second |
| Playback.CommandIsWritten | DDS-Modulation/software/lab5/hello_ucosii.c:275-302 | a command writes play, then pause, then stop, and sets only its own flag |
| Playback.FirstFlagCounts | DDS-Modulation/software/lab5/hello_ucosii.c:160-173 | whatever flags are set, a pass plays if play is, else holds if pause is, else rewinds if stop is |
| Playback.WithoutPlaying | DDS-Modulation/software/lab5/hello_ucosii.c:169-173 | over any events but commands, a paused player holds its place, a stopped one is back at the start after one pass, and neither sends anything |
| Playback.PlayAfterwards | DDS-Modulation/software/lab5/hello_ucosii.c:160-173 | over any run, play after a pause goes on where the song was, and after a stop (and a pass) from its start |
| Playback.RateChanges | DDS-Modulation/software/lab5/hello_ucosii.c:312-329 | slower takes 100 from the rate, down to 100, and faster adds 100, up to 88000 |
| Playback.RunsAreConsistent | DDS-Modulation/software/lab5/hello_ucosii.c:146-174 | over every interleaving the flags are a prefix of the new command's and a suffix of the old one's, the address is a multiple of 1000 below size+1000, every offset sent is inside the song, and the rate is a multiple of 100 between 100 and 88000 |
| Playback.TornWritesAreHarmless | DDS-Modulation/software/lab5/hello_ucosii.c:160-173 | in every interleaving the branch taken is that of the previous command, of the new one, or none, and a complete update leaves at most one flag set |
| Playback.PlayingCycles | DDS-Modulation/software/lab5/hello_ucosii.c:160-168 | continuous play from any address visits the addresses upwards in steps of 1000 to 1000*ceil(size/1000), starts again at 0, and sends the song offset of each address |
| Playback.ExtraBlock | DDS-Modulation/software/lab5/hello_ucosii.c:162-168 | the last pass of a cycle is past the end of the song, and begins with the start of the song again exactly when the size is a multiple of 1000 or divides 1000 |
| Rc4.CryptTwice | RC4-Decryptor/rtl/task2b.sv:135-138 | decrypting with the key that encrypted restores the text |
| Rc4.ScheduleIsPermutation | RC4-Decryptor/rtl/task2a.sv:62-116 | the key schedule only permutes the box it starts with |
| Rc4.KeyIsItsBytes | RC4-Decryptor/rtl/task2a.sv:64-69 | the key schedule uses the key's three bytes in turn, the most significant one first |
| Rc4.FirstRounds | RC4-Decryptor/rtl/task2a.sv:64-69 | with key 010203 the first three rounds take j to 1, 3 and 8 |
| DecryptorMachines.SliceIsKeyByte | RC4-Decryptor/rtl/task2a.sv:64-69 | the slices 23 to 16, 15 to 8 and 7 to 0 of the key register are those bytes |
| KeySearch.InitPhase | RC4-Decryptor/rtl/init_mem.sv:20-38 | the first machine fills the working memory from the cell it has reached to the last one |
| KeySearch.ScheduleRound | RC4-Decryptor/rtl/task2a.sv:53-114 | thirteen clocks, with the memory's read latency, are one round of the RC4 key schedule |
| KeySearch.SchedulePhase | RC4-Decryptor/rtl/task2a.sv:43-117 | 3586 clocks after it is started the second machine has left in the working memory what 256 rounds of the key schedule make of it |
| KeySearch.DecryptRound | RC4-Decryptor/rtl/task2b.sv:70-140 | twenty-one clocks generate the next key stream byte and store one decrypted byte |
| KeySearch.DecryptPhase | RC4-Decryptor/rtl/task2b.sv:59-152 | run to its end, the third machine leaves in the result memory the message decrypted with the key stream the box generates |
| KeySearch.CheckLoop | RC4-Decryptor/rtl/task3.sv:25-59 | the fourth machine reports success exactly when all 32 bytes are lower-case letters or spaces |
| KeySearch.Attempt | RC4-Decryptor/rtl/ksa.sv:165-207 | one pass over the four machines, with the memories switched between them, tries exactly one key |
| KeySearch.AttemptWith | RC4-Decryptor/rtl/ksa.sv:191-207 | the result memory holds the message decrypted with the box as it is, and the lights and the next state say whether it is readable |
| KeySearch.Search | RC4-Decryptor/rtl/ksa.sv:178-219 | no key is skipped: every key before the one the search stops at fails |
| Clocks.OncePressed | RC4-Decryptor/rtl/ksa.sv:165-176 | after the first press the button is ignored until the search is over |
| Handshakes.AlwaysOrderly | RC4-Decryptor/rtl/ksa.sv:165-222 | over every run from power-on, with any use of the start and reset buttons, a machine started earlier comes to rest before one started later, and the controller has seen each machine of an earlier stage come to rest |
| Handshakes.FirstMachineIff | RC4-Decryptor/rtl/ksa.sv:171-183 | the controller gets past the first machine if and only if start is not pressed on the clock on which that machine writes its last cell |
| Handshakes.SecondMachineIff | RC4-Decryptor/rtl/ksa.sv:185-189 | and past the second one if and only if that machine is not in its last state when it is started |
| Handshakes.ReachesDecrypt | RC4-Decryptor/rtl/ksa.sv:171-191 | otherwise the third machine is started on the clock that the two machines' states at the press foretell, with all machines idle |
| Handshakes.RunsThatHang | RC4-Decryptor/rtl/ksa.sv:165-189 | two runs from power-on that hang: start, reset after 255 or after 3583 clocks, start again |
| Handshakes.IdleAfterReset | RC4-Decryptor/rtl/ksa.sv:166-169 | whatever the four machines were doing, they are idle 3585 clocks after a reset |
| StartButton.FirstBoxIs | RC4-Decryptor/rtl/ksa.sv:165-191 | with the second machine idle when it is started, the box for key 0 is the key schedule of key 0 on what the first machine has left |
| StartButton.EveryPress | RC4-Decryptor/rtl/ksa.sv:165-222 | from every state there can be, unless a machine is missed, the search tries the keys in order and stops, and only the attempt with key 0 depends on that state |
| StartButton.AnswersIff | RC4-Decryptor/rtl/ksa.sv:165-222 | the search stops if and only if no machine is missed; it stops with the smallest key for its message if and only if in addition the attempt with key 0 gives what it should |
| StartButton.EveryMessage | RC4-Decryptor/rtl/ksa.sv:165-222 | it does so for every message if and only if no machine is missed and the box generates the key stream of key 0 |
| StartButton.HangsWhenMissed | RC4-Decryptor/rtl/ksa.sv:165-222 | if a machine is missed the decryptor hangs, whatever start does later |
| StartButton.RunThatSpoils | RC4-Decryptor/rtl/ksa.sv:165-183 | a run that does not hang and goes wrong: start, reset on the next clock, start again 254 clocks later, with a working memory of equal values: some message is not answered |
| StartButton.IdleIsReady | RC4-Decryptor/rtl/ksa.sv:171-176 | an idle decryptor is always ready for a press |
| StartButton.SafeLater | RC4-Decryptor/rtl/ksa.sv:165-176 | so is any decryptor 3326 clocks after a reset |
| StartButton.FindsSmallestKey | RC4-Decryptor/rtl/ksa.sv:165-222 | if the decryptor is ready when start is first pressed (the first machine at rest or the memory correctly filled so far, and the second one at rest by the time it is started), then however start is used from then on it next stops with the smallest key of at most 22 bits that gives readable text, that text in the result memory and the first light on, or with the second light on if there is none |
| StartButton.EncryptedMessagesAreFound | RC4-Decryptor/rtl/ksa.sv:165-222 | a readable message encrypted with such a key is then always deciphered to readable text, with no larger key |

## Left out

- DrawGimps.DispImage: does not cover images whose width truncated to 16 bits is negative, because the row copy would then be asked for a negative number of bytes.
- TextTheorems.PrintedText: does not cover texts that set a glyph taller than a line before a newline, where lines overlap; `TextTheorems.LayersShow` does.
- StartButton.FirstBoxIs: does not compute the box for key 0 when the second machine is still busy with an earlier schedule as it is started; `StartButton.FirstBox` is then what the clocked registers give.
- SgDma.MyMemcpy: does not cover size 0, for which the program starts the engine on a descriptor it never wrote.
- 32-bit overflow of addresses, coordinates and sizes: all of them are taken to fit.
- Failing allocation: `malloc` always succeeds, and `free` has no effect.
- Image data inside frame memory: what is read while drawing is a separate buffer, as in the program's own use.
- Cache flushing, alignment of word accesses, and the debug print in the row copy.
- Lines, circles, triangles, boxes, bitmap fonts and scrolling of simple_graphics.c, except `vid_set_pixel`.
- Mouse hit-testing and screen layout of hello_ucosii.c; filling the audio FIFO, whose text in the file is run together into a macro: a pass of `task1` stands for sending one block from an offset.
- student_code.c and frame.c: register writes and a constant fill.
- The seven-segment display of the decryptor, and the other designs of the repository (tone organ, iPod, modulator hardware).
