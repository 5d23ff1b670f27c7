# lvdterm: a verified model of its protocol and state machines

lvdterm is a terminal program. Besides terminals it carries a VNC (RFB) client of
its own, a Telnet client, an X11 forwarder for SSH, a tree of split panes, a hex
dump, an SFTP browser and a table of rebindable shortcuts. This project models the
parts of it that keep state across events and proves what they are relied on for.

Dafny 4.11; `dafny verify dfyconfig.toml` checks everything.

## How it is laid out

- `Bytes`, `Images`, `Packing`, `Tiles`: byte reads, pixel images, packed palette
  rows and the tilings that several decoders share.
- `Zrle`, `Hextile`, `Tight`: the three compressed rectangle encodings. Each module
  has the decoder as a function of the bytes, a reference encoder for every choice
  the encoding allows, and the round trip. ZRLE and Hextile follow sections 7.7.4 to
  7.7.6 of RFC 6143; Tight is what the client takes it to be.
- `Rfb`: one step of the client as a function of its session and of the bytes that
  have arrived. `RfbRuns` (whole runs), `RfbSafety` (invariants), `RfbRectangles` and
  `RfbSent` (a rectangle), `RfbUpdates` (an update), `RfbGreeting` (a greeting),
  `RfbSessions` (a session) and `RfbRefusals` (what is refused) are theorems about it.
  What a server sends is put together there byte by byte, with numbers of its own.
  `VncClient` is the client as an object that draws into two arrays in place; each of
  its methods is proved to do what the step function says.
- `Telnet` and `TelnetTransport`: parser, writers and option negotiation as
  functions with their theorems, and the object that is tied to them.
- `X11` and `X11Forwarder`: the rewriting of a connection setup as a function of the
  stream, and the bridge with its queues.
- `Panes`, `PaneOps`, `PaneMoves`, `PaneTabs`, `PaneSafety` and `MainWindow`: the
  tree of panes. Every operation is made of splices - a widget replaced in its
  parent's list - so a few lemmas about splices carry all of them.
- `HexRows` and `HexDump`; `Shortcuts` and `ShortcutsPage`; `SftpKeys`, `SftpPool` and
  `SftpDock`; `SftpTree` and `SftpModel`: a module of values and laws, and the
  objects that are proved against it.

What the program calls but does not contain - zlib streams, JPEG, DES, reading a
decimal number, sockets, dialogs - is an oracle or a parameter. A zlib stream is
the history of what it has been fed since its last reset, and inflating is a
function of that history, so "the same bytes in the same order, once" is what the
theorems about streams say.

## What turned out not to hold

- **A Telnet subnegotiation for option 255 is not transparent.** The writer doubles
  255 in the payload but not in the option byte. `Telnet.SubTransparentIff` shows
  that a subnegotiation is read back as sent if and only if its option is not 255;
  no option the program sends is.
- **Coming back to a pane does not always spare the login**, although
  `src/ui/SftpDock.cpp:786` says so: with six sessions kept, keeping the present one
  may first throw out the very one wanted. `SftpPool.BackWithoutLoginIff` gives the
  exact condition and `SftpPool.FullPoolCanLose` a run of seven panes that gets there.
- **The key of a kept session does not determine the connection.** User, host and port
  are joined with `@` and `:`, and the port is put in last, into every place marker of
  the lowest number - those in the names included. `SftpKeys.KeyIsOwnIff`: over all
  connections, a key is a connection's own if and only if neither name contains an `@`,
  a marker up to `%3`, or the port's digits where such a marker could have put them.
  `SftpKeys.KeysCanClash` (an `@`) and `SftpKeys.ZonesCanClash` (two zones of one
  link-local address) are inputs that fail, and `SftpPool.ClashHandsOver` is a run in
  which the session made for one connection is handed to the pane of another.
- **Checking for a key's holder takes the whole sequence, while only its first chord is
  kept.** `Shortcuts.AssignKeepsUniqueIff`: assigning leaves no key with two commands if
  and only if one chord at most was asked for, or no one else has the first one.
  `Shortcuts.TwoChordsCollide` is a sequence that fails. The page passes single chords.
- **The path index can lose a node.** Adding a node takes its path's place in the index
  whoever has it: the index remains that of the tree if and only if no node has that
  path (`SftpTree.IndexedIff`), and after a listing if and only if the joined paths
  differ and no remaining node has one (`SftpTree.FilledIndexedIff`).
  `SftpTree.SecondOfAName` is an input that fails. With names that are not empty and
  have no slashes that is so exactly when the name is new (`SftpTree.IndexableIff`).
- **A picker can be left without the splitter its handlers use.** Taking or moving away
  the pane beside it deletes that splitter if and only if the two were alone in it
  (`PaneSafety.HomeStaysIff`, `PaneSafety.HomeStaysAfterMoveIff`);
  `MainWindows.PickerLeftBehind` is a run of two splits and a drag that gets there.
  Answering or dismissing the picker then uses a deleted widget, where the model's
  operations report that they cannot go on.

## Model

| member | source | states |
|---|---|---|
| RfbRuns.StepSound | src/transports/vnc/VncClient.cpp:201-232 | Whatever the bytes, a step keeps the session well formed, never reads past what has arrived, and when it reports progress has consumed at least one byte; so the read loop ends. |
| RfbRuns.StepExtends | src/transports/vnc/VncClient.cpp:219-232 | A step that committed does the same with more bytes behind; one that had too few can be taken up later, from where it left off, with the same outcome as if all had been there at once. |
| RfbRuns.TightExtends | src/transports/vnc/VncClient.cpp:644-828 | The same for a Tight rectangle, which starts again from its first byte each time: the resets it has already done make no difference. |
| RfbRuns.HextileExtends | src/transports/vnc/VncClient.cpp:573-586 | The same for a Hextile rectangle, which goes on at the tile it had reached. |
| RfbRuns.RunSplits | src/transports/vnc/VncClient.cpp:201-217 | Running on some bytes and then on more, with what was left over in front, is running on all of them. |
| RfbRuns.ChunkIndependence | src/transports/vnc/VncClient.cpp:201-232 | For every stream and every way of cutting it into reads the client ends with the same stage, images, rectangle state, zlib streams, output and unread bytes as if it had come in one piece. |
| RfbSafety.StepAgrees | src/transports/vnc/VncClient.cpp:413-418 | Displayed and working image have one size and differ only inside the dirty box and the rectangle in progress; they are equal after a finished update; the displayed one changes only as an update finishes, or as the greeting or a DesktopSize rectangle replaces it by a blank one. |
| RfbSafety.EndRectAgrees | src/transports/vnc/VncClient.cpp:618-631 | The last rectangle of an update makes the displayed image equal to the working one and empties the dirty box; any other leaves the displayed image alone. |
| RfbSafety.BodyShape | src/transports/vnc/VncClient.cpp:562-633 | A drawing rectangle touches pixels of the working image inside itself only, touches no counters until it is complete, and is then marked dirty as a whole. |
| RfbSafety.PublishEqualizes | src/transports/vnc/VncClient.cpp:1074-1089 | Copying just the dirty box publishes the whole working image, if the two differ nowhere else. |
| RfbSafety.RectanglesBalance | src/transports/vnc/VncClient.cpp:518-633 | With rectangles pending, each step either ends one or none: done plus left stays the announced number, and the update finishes exactly when none is left, or at a LastRect if the number was open; one request is sent for each update finished. |
| RfbSafety.UpdateTakesItsRectangles | src/transports/vnc/VncClient.cpp:463-482 | Over any run, an update announced with N rectangles finishes after exactly N of them. |
| RfbSafety.OpenEndedUpdate | src/transports/vnc/VncClient.cpp:463-482 | An update announced with 65535 rectangles stays open until a LastRect rectangle, and finishes at the first. |
| RfbSafety.StepBooks | src/transports/vnc/VncClient.cpp:449-461 | While running, update requests sent are always one more than updates finished; before that none has been sent. |
| RfbSafety.StepNotes | src/transports/vnc/VncClient.cpp:1074-1089 | A step that finishes an update ends by asking for the next: for the whole of the screen as it is, and incrementally unless a new size was announced since the last request. The first request is for everything; between updates nothing is left to publish. |
| RfbSafety.ReachableIsSafe | src/transports/vnc/VncClient.cpp:201-232 | In every state reachable from a new client by any stream: well formed, images agreeing, requests one ahead of updates, each for what it had to be. |
| RfbRectangles.TightRetriesHarmless | src/transports/vnc/VncClient.cpp:676-688 | However often a Tight rectangle was tried on too few bytes, the try that has them all gives the result of a single try. |
| RfbRectangles.TightStreams | src/transports/vnc/VncClient.cpp:676-781 | A Tight rectangle resets the streams its control byte names and then feeds its one compressed chunk, if it has one, to the stream in bits 4 and 5 - and no other - once. |
| RfbRectangles.TightRectangle | src/transports/vnc/VncClient.cpp:644-828 | Given a stream that inflates to the filtered data, a Tight rectangle by any filter paints the raster it was made from and consumes exactly its own bytes. |
| RfbRectangles.ZrleRectangle | src/transports/vnc/VncClient.cpp:833-986 | The same for ZRLE, for every choice of sub-encoding per tile. |
| RfbRectangles.HextileRectangle | src/transports/vnc/VncClient.cpp:573-586 | The same for Hextile, for every choice per tile. |
| RfbSent.BodyArrives | src/transports/vnc/VncClient.cpp:532-633 | A rectangle sent in any of the encodings is drawn as it was meant, its streams fed and reset as its control byte says, and it is counted; of a JPEG every pixel is that of the decoder in reading order. |
| RfbSent.ControlResets | src/transports/vnc/VncClient.cpp:676-688 | The low four bits of a Tight control byte start afresh the streams they number, whatever kind stands above them. |
| RfbUpdates.UpdateArrives | src/transports/vnc/VncClient.cpp:463-633 | An update of any rectangles - raw, copied, Hextile, ZRLE, Tight by any filter, fill or JPEG, new sizes - counted or ended by a LastRect, cut into any reads, leaves both images showing all of them in order, every stream as the server left it, one update more finished, and no byte over; it announces the new sizes, the smallest box of what changed, and the next request. |
| RfbUpdates.ShowsPicture | src/transports/vnc/VncClient.cpp:518-633 | Rectangles cut out of a picture, or copied from where it shows the same already, show that picture on every pixel one of them has, overlapping or not, and leave all other pixels. |
| RfbUpdates.PictureIsDisplayed | src/transports/vnc/VncClient.cpp:1074-1089 | If they cover it, the displayed image is the picture, however each was coded and whatever the reads. |
| RfbUpdates.EveryPictureCanBe | src/transports/vnc/VncClient.cpp:463-633 | For every picture there is such an update. |
| RfbUpdates.StreamGrows | src/transports/vnc/VncClient.cpp:676-781 | Over any rectangles that do not reset a Tight stream its history grows by their chunks for it, each once, in wire order. |
| RfbUpdates.StreamSinceReset | src/transports/vnc/VncClient.cpp:676-781 | Otherwise its history is their chunks for it since the last reset. |
| RfbGreeting.Admitted | src/transports/vnc/VncClient.cpp:234-411 | A server that lets the client in - in version 3.3, 3.7 or 3.8, without or with a password, a result sent where the version has one - in any reads: the client has sent its version, type, response and ClientInit, shows a black desktop of the size and name given, and has asked for all of it. |
| RfbGreeting.Denied | src/transports/vnc/VncClient.cpp:342-375 | A login refused is not followed by a ClientInit: the client fails with the server's reason in 3.8, else with a wrong password. |
| RfbGreeting.TurnedAway | src/transports/vnc/VncClient.cpp:277-299 | A server that offers no security type is failed with for the reason it gives. |
| RfbGreeting.NothingUsable | src/transports/vnc/VncClient.cpp:261-319 | Nor is anything but a failure to be had from types the client does not know, listed or, in 3.3, dictated. |
| RfbGreeting.Cancels | src/transports/vnc/VncClient.cpp:321-340 | A user who gives no password ends it, and nothing is answered to the challenge. |
| RfbGreeting.NoDesktop | src/transports/vnc/VncClient.cpp:383-411 | A desktop without width or height is not opened. |
| RfbGreeting.StopsAt | src/transports/vnc/VncClient.cpp:234-241 | What does not begin as RFB does is refused, as are texts of over a mebibyte. |
| RfbSessions.TalkArrives | src/transports/vnc/VncClient.cpp:463-516 | Any messages in any order - updates, colour maps, bells, clipboards - in any reads: each has its effect and its event, one after the other, the displayed image is the picture the updates make, and no byte is left. |
| RfbSessions.SessionArrives | src/transports/vnc/VncClient.cpp:201-232 | A new client, let in and sent any messages, shows the picture the updates make out of a black desktop; its requests are one more than the updates, each for what it had to be. |
| RfbSessions.ReachableIsBetween | src/transports/vnc/VncClient.cpp:463-482 | Whatever a client has been through, between two updates it is as these results take it to be. |
| RfbSessions.NotAMessage | src/transports/vnc/VncClient.cpp:463-516 | Unknown messages and clipboards of over a mebibyte are refused. |
| RfbRefusals.RefusesHeader | src/transports/vnc/VncClient.cpp:518-537 | A rectangle off the screen or of no extent, an unknown encoding, a size of zero or over 16384: the client fails for just that reason and goes on showing what it showed. |
| RfbRefusals.RefusesCopy | src/transports/vnc/VncClient.cpp:557-566 | So it does at a copy from outside the screen. |
| RfbRefusals.RefusesTight | src/transports/vnc/VncClient.cpp:724-772 | At a Tight kind or filter there is not. |
| RfbRefusals.RefusesPicture | src/transports/vnc/VncClient.cpp:699-712 | At a JPEG that cannot be read or is of another size than its rectangle. |
| RfbRefusals.RefusesTightData | src/transports/vnc/VncClient.cpp:758-781 | At Tight data that do not inflate to just the rectangle's pixels. |
| RfbRefusals.RefusesZrle | src/transports/vnc/VncClient.cpp:833-860 | At ZRLE data of over 64 MiB, that do not inflate, or that do not decode. |
| RfbRefusals.RefusesHextile | src/transports/vnc/VncClient.cpp:573-586 | At a Hextile subrectangle that sticks out of its tile. |
| Images.PaintRead | src/transports/vnc/VncClient.cpp:540-556 | A raster painted into a rectangle of an image is what is read back from it, whatever its pixels. |
| Tiles.TilesPartition | src/transports/vnc/VncClient.cpp:573-586 | From any tile on, the tiles to come hold each pixel ahead of the cursor once and no pixel behind it. |
| Tiles.EachPixelInOneTile | src/transports/vnc/VncClient.cpp:875-882 | The clipped tiles partition their rectangle. |
| Packing.PackedRoundTrip | src/transports/vnc/VncClient.cpp:908-923 | Palette indices packed 1, 2, 4 or 8 bits a pixel, most significant first, each row padded to a byte, unpack to the colours they name. |
| Zrle.LengthRoundTrip | src/transports/vnc/VncClient.cpp:953-961 | Every run length is read back from its 255-bytes and remainder. |
| Zrle.RunsRoundTrip | src/transports/vnc/VncClient.cpp:924-975 | A series of runs, plain or by palette index, that fills a tile is read back pixel for pixel. |
| Zrle.TileRoundTrip | src/transports/vnc/VncClient.cpp:885-976 | Every tile, coded raw, solid, by packed palette of 2 to 16 colours, by plain runs or by runs over 2 to 126 colours, is read back, and exactly its bytes are consumed. |
| Zrle.CutTileFails | src/transports/vnc/VncClient.cpp:885-976 | A tile cut short anywhere does not decode. |
| Zrle.CutRectFails | src/transports/vnc/VncClient.cpp:860-983 | Nor does a rectangle cut short anywhere. |
| Zrle.LongRunFails | src/transports/vnc/VncClient.cpp:924-975 | Runs of which one goes past the tile's end do not decode. |
| Zrle.ZrleRoundTrip | src/transports/vnc/VncClient.cpp:860-983 | For every raster and every choice of coding for each tile, decoding the encoded rectangle draws that raster in the rectangle and changes nothing else. |
| Zrle.EveryImageArrives | src/transports/vnc/VncClient.cpp:860-983 | Every raster has codes - a raw one for each tile, say - so there are bytes that draw it. |
| Zrle.DecodeStaysInside | src/transports/vnc/VncClient.cpp:860-983 | Malformed data or not, nothing outside the rectangle is drawn. |
| Hextile.TileExtends | src/transports/vnc/VncClient.cpp:988-1063 | A tile that was complete is decoded to the same pixels and colours whatever follows it. |
| Hextile.LoopResumes | src/transports/vnc/VncClient.cpp:573-586 | The loop over tiles, stopped for lack of bytes and resumed with more, does what it does with all at once. |
| Hextile.LoopIsFold | src/transports/vnc/VncClient.cpp:573-586 | The resumable loop computes the image of a plain fold over the tiles in row-major order that carries background and foreground. |
| Hextile.LoopStaysInside | src/transports/vnc/VncClient.cpp:988-1063 | Whatever the bytes, only pixels of the rectangle are drawn. |
| Hextile.TileRoundTrip | src/transports/vnc/VncClient.cpp:988-1063 | Every tile - raw, or a background with coloured or uncoloured subrectangles, colours given or carried over - is drawn as coded, leaves the colours to carry, and consumes exactly its bytes. |
| Hextile.DrawnIff | src/transports/vnc/VncClient.cpp:1025-1063 | A tile's subrectangles are drawn to the last if and only if none sticks out of it. |
| Hextile.TileBreaksIff | src/transports/vnc/VncClient.cpp:988-1063 | A tile breaks its rectangle off if and only if it is all here and such a subrectangle is among its own. |
| Hextile.HextileRoundTrip | src/transports/vnc/VncClient.cpp:573-586 | For every raster and every coding of its tiles, the decoder draws that raster in the rectangle and nothing else. |
| Hextile.EveryImageArrives | src/transports/vnc/VncClient.cpp:573-586 | Every raster has codes, so there are bytes that draw it and are consumed to the last. |
| Tight.ParseExtends | src/transports/vnc/VncClient.cpp:644-772 | Once a Tight rectangle can be parsed, its parse does not depend on what follows; a rejected one stays rejected. |
| Tight.CompactRoundTrip | src/transports/vnc/VncClient.cpp:655-674 | Every length below 4194304 is read back from its one, two or three bytes, whatever is before and behind. |
| Tight.GradientRoundTrip | src/transports/vnc/VncClient.cpp:795-816 | Adding the prediction undoes taking away, for every pixel and component, what its left, upper and upper-left neighbours make likely - their sum and difference, kept within a byte, zero outside. |
| Tight.PredictsGuess | src/transports/vnc/VncClient.cpp:795-816 | The prediction from the components gone before is that of the neighbours. |
| Tight.FilterRoundTrip | src/transports/vnc/VncClient.cpp:750-824 | Copied pixels, one-bit and eight-bit palettes and gradients are all undone. |
| Tight.RectangleRoundTrip | src/transports/vnc/VncClient.cpp:644-781 | The bytes of a basic rectangle parse to its stream, filter and data, short data uncompressed, and to their own length. |
| Tight.FillRoundTrip | src/transports/vnc/VncClient.cpp:691-697 | A fill rectangle parses to its colour. |
| Tight.PictureRoundTrip | src/transports/vnc/VncClient.cpp:699-704 | A JPEG rectangle parses to its data, of whatever length below 4194304. |
| VncClients.VncClient.OnReadyRead | src/transports/vnc/VncClient.cpp:201-217 | The object, after a chunk, is where a run on all bytes since the last reading position leads, with the bytes still unread kept. |
| VncClients.VncClient.Step | src/transports/vnc/VncClient.cpp:219-232 | The object's step is the step of `Rfb`, its cursor moved by what that consumes. |
| VncClients.VncClient.StepVersion | src/transports/vnc/VncClient.cpp:234-259 | The same for the version exchange: refusal of other protocols, the highest version both know. |
| VncClients.VncClient.StepSecurityTypes | src/transports/vnc/VncClient.cpp:277-319 | The same for the choice of a security type, by either protocol version. |
| VncClients.VncClient.BeginSecurity | src/transports/vnc/VncClient.cpp:261-275 | The same for entering a security type; types other than none and VNC authentication fail. |
| VncClients.VncClient.StepAuthChallenge | src/transports/vnc/VncClient.cpp:321-340 | The same for the challenge of VNC authentication. |
| VncClients.VncClient.StepSecurityResult | src/transports/vnc/VncClient.cpp:342-358 | The same for its outcome. |
| VncClients.VncClient.StepSecurityReason | src/transports/vnc/VncClient.cpp:360-375 | The same for the reason of a failure, whose text must have arrived whole. |
| VncClients.VncClient.StepServerInit | src/transports/vnc/VncClient.cpp:383-411 | The same for the server's greeting: framebuffers of its size, formats and a full request sent. |
| VncClients.VncClient.StepMessage | src/transports/vnc/VncClient.cpp:463-516 | The same for the server's messages. |
| VncClients.VncClient.StepRect | src/transports/vnc/VncClient.cpp:518-633 | The same for a rectangle's header and body. |
| VncClients.VncClient.RawRect | src/transports/vnc/VncClient.cpp:540-556 | The same for a raw rectangle: nothing is drawn until all of it is there. |
| VncClients.VncClient.DesktopSizeRect | src/transports/vnc/VncClient.cpp:601-612 | The same for a change of the screen's size: two new arrays of that size, all of it dirty; sizes out of range fail. |
| VncClients.VncClient.CopyRect | src/transports/vnc/VncClient.cpp:557-572 | Copying an area of the working array over another, overlapping or not, gives what was in the source area before. |
| VncClients.VncClient.HextileRect | src/transports/vnc/VncClient.cpp:573-586 | Drawing tiles in place, with the position in the object's fields, is the resumable loop on images. |
| VncClients.VncClient.StepHextileTile | src/transports/vnc/VncClient.cpp:988-1063 | A tile drawn in place is the tile decoded on an image; an incomplete one draws nothing and carries no colour. |
| VncClients.VncClient.TightRect | src/transports/vnc/VncClient.cpp:644-828 | Drawing a Tight rectangle in place is painting the decoded raster; on too few bytes only the stream resets remain. |
| VncClients.VncClient.ZrleRect | src/transports/vnc/VncClient.cpp:833-986 | Drawing a ZRLE rectangle tile by tile in place is decoding it on an image. |
| VncClients.VncClient.FinishUpdate | src/transports/vnc/VncClient.cpp:1074-1089 | Copying the dirty box pixel by pixel publishes it; the update is counted and announced, and the next one requested. |
| VncClients.VncClient.PaintRows | src/transports/vnc/VncClient.cpp:540-556 | Writing a rectangle scan line by scan line leaves the array as the image with that raster painted in. |
| Telnet.AnyChunking | src/transports/telnet/TelnetTransport.cpp:75-142 | What is parsed does not depend on how the stream was cut into chunks. |
| Telnet.DataTransparent | src/transports/telnet/TelnetTransport.cpp:37-52 | Parsing written data delivers exactly the data. |
| Telnet.DeliveredInAnyChunks | src/transports/telnet/TelnetTransport.cpp:75-142 | So it does in any chunks, and leaves the parser as it was. |
| Telnet.SubParses | src/transports/telnet/TelnetTransport.cpp:203-217 | A subnegotiation arrives once, as option and payload, whatever bytes the payload has. |
| Telnet.SubTransparentIff | src/transports/telnet/TelnetTransport.cpp:203-217 | It is read back as sent if and only if its option is not 255. |
| Telnet.StreamTransparent | src/transports/telnet/TelnetTransport.cpp:75-142 | Any mixture of data, commands and subnegotiations is read back in order. |
| Telnet.ReportSurvives | src/transports/telnet/TelnetTransport.cpp:219-230 | A window size below 65536 either way is read back from its report, bytes of 255 included. |
| Telnet.RepliesWeighLess | src/transports/telnet/TelnetTransport.cpp:144-195 | What is sent in answer to a message weighs less than the message. |
| Telnet.NegotiationTerminates | src/transports/telnet/TelnetTransport.cpp:144-195 | Two endpoints joined by queues, with any messages under way, are quiet after no more deliveries than the weight of those messages, in whatever order they happen. |
| Telnet.RepliesSendable | src/transports/telnet/TelnetTransport.cpp:144-195 | All answers are of the kind that is read back as sent, and none is data. |
| Telnet.NoReportBeforeOffer | src/transports/telnet/TelnetTransport.cpp:219-230 | Whatever arrives and however the window is resized, no size report is sent before the WILL that offers it. |
| Telnet.ResizeTells | src/transports/telnet/TelnetTransport.cpp:219-230 | Where reports are agreed on, a resized window is reported once, columns first, with the size it was given, modulo 65536. |
| Telnet.OfferTells | src/transports/telnet/TelnetTransport.cpp:161-171 | Asked for reports, the client offers them and then reports the size it has. |
| Telnet.ReportsAreCurrent | src/transports/telnet/TelnetTransport.cpp:30-35 | Over any run every report sent holds the size last given. |
| Telnet.Answers | src/transports/telnet/TelnetTransport.cpp:144-179 | Byte for byte: echo and suppress-go-ahead are welcome, terminal type and window size to be had, nothing else is, and a refusal is not answered. |
| Telnet.SaysItsType | src/transports/telnet/TelnetTransport.cpp:181-195 | Asked for its type, and only then, the terminal calls itself xterm-256color. |
| Telnet.PassesOver | src/transports/telnet/TelnetTransport.cpp:75-142 | Commands without an option are passed over, and a subnegotiation with one in it is given up. |
| TelnetTransports.TelnetTransport.Write | src/transports/telnet/TelnetTransport.cpp:37-52 | Connected, writes the data with every 255 doubled; otherwise nothing. |
| TelnetTransports.TelnetTransport.SendSubnegotiation | src/transports/telnet/TelnetTransport.cpp:203-217 | Writes the framed payload with every 255 doubled. |
| TelnetTransports.TelnetTransport.HandleCommand | src/transports/telnet/TelnetTransport.cpp:144-179 | Answers as the negotiation function does and takes over its state. |
| TelnetTransports.TelnetTransport.HandleSubnegotiation | src/transports/telnet/TelnetTransport.cpp:181-195 | Answers a request for the terminal type, and nothing else. |
| TelnetTransports.TelnetTransport.Resize | src/transports/telnet/TelnetTransport.cpp:30-35 | The new size is kept, and reported if reports have been agreed on. |
| TelnetTransports.TelnetTransport.ConnectToHost | src/transports/telnet/TelnetTransport.cpp:15-23 | A new connection starts with an empty parser and nothing negotiated. |
| TelnetTransports.TelnetTransport.ProcessIncoming | src/transports/telnet/TelnetTransport.cpp:75-142 | After a chunk: the parser's state, the data delivered in one piece and every answer sent are those of parsing the chunk and handling what was found, in order. |
| X11.RewriteExtends | src/transports/ssh/X11Forwarder.cpp:148-185 | A refusal stands whatever follows; after a rewriting, whatever follows is passed on unchanged. |
| X11.SwapsCredentials | src/transports/ssh/X11Forwarder.cpp:148-185 | A request with the fake cookie, in either byte order, with any name, pad bytes and pipelined data, becomes the same request with the local display's name and cookie, or none. |
| X11.RefusesOthers | src/transports/ssh/X11Forwarder.cpp:162-164 | A request with any other authorization data is refused. |
| X11.WaitsForAll | src/transports/ssh/X11Forwarder.cpp:150-160 | No proper prefix of a request decides anything. |
| X11.LetThroughIff | src/transports/ssh/X11Forwarder.cpp:148-185 | A stream is let through if and only if it begins with a whole request that carries the fake cookie. |
| X11.WithU16 | src/transports/ssh/X11Forwarder.cpp:19-30 | A 16-bit field written in a byte order is read back in it, and no other byte changes. |
| X11Forwarders.X11Forwarder.ProcessSetup | src/transports/ssh/X11Forwarder.cpp:148-185 | Decides on the setup bytes so far as the rewriting of that stream does, and touches nothing until it is decided. |
| X11Forwarders.X11Forwarder.ReadChannel | src/transports/ssh/X11Forwarder.cpp:217-238 | For any sequence of reads, what the display has been given plus what waits for it is the rewriting of all the client has sent. |
| X11Forwarders.X11Forwarder.ServeLocal | src/transports/ssh/X11Forwarder.cpp:240-248 | Whatever the socket takes goes to it from the front of what waits, and what it says is appended, so both histories stay whole. |
| X11Forwarders.X11Forwarder.WriteChannel | src/transports/ssh/X11Forwarder.cpp:250-260 | For any partial writes, what the client has been given plus what waits for it is all the display has said, in order. |
| X11Forwarders.X11Forwarder.PumpOne | src/transports/ssh/X11Forwarder.cpp:213-272 | Both, over a whole turn, with each side given exactly as much as it takes; a client that is refused is cut off without the display having been given a byte. |
| X11Forwarders.EndsIff | src/transports/ssh/X11Forwarder.cpp:217-239 | Reading ends a connection if and only if the first read without data is an error, or finds nothing at the channel's end. |
| X11Forwarders.TookIs | src/transports/ssh/X11Forwarder.cpp:250-260 | The channel is given what waits for it, as far as its writes go before one is refused. |
| X11Forwarders.BreaksIff | src/transports/ssh/X11Forwarder.cpp:250-260 | And breaks off if and only if bytes still wait at a write that fails. |
| X11Forwarders.X11Forwarder.Pump | src/transports/ssh/X11Forwarder.cpp:209-277 | A turn does the same for every connection, each by its own reads and writes, although the list shrinks under way; those still open stay, in order. |
| X11Forwarders.X11Forwarder.Adopt | src/transports/ssh/X11Forwarder.cpp:119-146 | A new connection joins the list with nothing read or written; the others are untouched. |
| Panes.SpliceLeaves | src/app/MainWindow.cpp:1144-1172 | Replacing a widget puts the leaves of the new one where those of the old were and moves no other leaf. |
| Panes.CollapseFull | src/app/MainWindow.cpp:1144-1172 | Giving a one-child splitter's place to its child makes every splitter hold two or more again. |
| PaneOps.TakeOutKeeps | src/app/MainWindow.cpp:1144-1172 | Taking a pane out of its splitter and collapsing that leaves every splitter with two or more, every widget there once, and all other leaves in order. |
| PaneOps.JoinKeeps | src/app/MainWindow.cpp:1009-1041 | Putting a pane beside another leaves it next to it, on the side asked for, in a splitter of the orientation asked for. |
| PaneMoves.EdgeMoveOrders | src/app/MainWindow.cpp:977-1053 | A pane dropped on another's left or top edge comes just before it in the order of leaves, on its right or bottom edge just after it, and all others stay; the two are neighbours in a splitter that runs from left to right for the sides, else from top to bottom; no splitter is left with fewer than two widgets. |
| PaneMoves.NestsIff | src/app/MainWindow.cpp:1010-1042 | A new splitter is made if and only if the target's own, once the pane is taken out, does not run the way the edge asks. |
| PaneMoves.SwapIsSwapped | src/app/MainWindow.cpp:987-996 | The three replacements with a placeholder give the same tree with the two panes changed for each other. |
| PaneMoves.SwapTransposes | src/app/MainWindow.cpp:987-996 | So the shape stays and the order of leaves has exactly those two transposed. |
| PaneMoves.SplitKeeps | src/app/MainWindow.cpp:1059-1081 | Splitting adds the picker just after the pane split and moves no leaf. |
| PaneMoves.CancelUndoesSplit | src/app/MainWindow.cpp:1095-1100 | A split followed by its cancelling is the very tree there was. |
| PaneMoves.CancelKeeps | src/app/MainWindow.cpp:1095-1100 | At any later time too, cancelling removes the picker and no other leaf. |
| PaneMoves.FinishKeeps | src/app/MainWindow.cpp:1129-1142 | The new terminal takes the picker's place among the leaves. |
| PaneMoves.SplitterSurvivesIff | src/app/MainWindow.cpp:1144-1172 | Taking a widget out deletes its splitter if and only if that held just two. |
| PaneTabs.MoveInTab | src/app/MainWindow.cpp:977-1041 | A move changes one tab page, as if it were the only one. |
| PaneTabs.AtHome | src/app/MainWindow.cpp:1095-1100 | A picker whose captured splitter still exists is a child of that splitter. |
| PaneSafety.MoveSound | src/app/MainWindow.cpp:977-1049 | After a move no identity is used twice, every splitter holds two or more, and pickers are in the splitters made for them or those are gone. |
| PaneSafety.TakeOutSound | src/app/MainWindow.cpp:1198-1225 | Taking out a picker or a terminal that is not its page's last keeps all invariants: full splitters, distinct widgets, pickers at home, a terminal on every page. |
| PaneSafety.CancelSound | src/app/MainWindow.cpp:1095-1100 | So does cancelling any picker that can still be answered. |
| PaneSafety.HomeStaysIff | src/app/MainWindow.cpp:1144-1172 | When a terminal leaves its splitter every picker stays, and its captured splitter exists afterwards if and only if the two were not alone in it. |
| PaneSafety.HomeStaysAfterMoveIff | src/app/MainWindow.cpp:998-1041 | The same when a terminal is moved to any edge of another. |
| MainWindows.PickerLeftBehind | src/app/MainWindow.cpp:1095-1100 | A run from one page, all of whose states keep the invariants, ends with a picker whose captured splitter is gone. |
| PaneSafety.SwapSound | src/app/MainWindow.cpp:987-996 | So does a swap, which changes one page and there just the order of the two. |
| MainWindows.MainWindow.SplitActivePane | src/app/MainWindow.cpp:1051-1127 | Splits the active pane or, without one, the first of the current page; without either nothing changes. Cancelling right after restores the old tabs. |
| MainWindows.MainWindow.FinishSplit | src/app/MainWindow.cpp:1129-1142 | If what the handler captured still exists, one leaf changes - the picker to the new, active terminal - and the invariants stay; if not, the model stops there, as the program has no defined behaviour. |
| MainWindows.MainWindow.CancelSplit | src/app/MainWindow.cpp:1095-1100 | If what the handler captured still exists, one leaf goes - the picker - the pane that was split becomes active and the invariants stay; if not, the model stops there. |
| MainWindows.MainWindow.MovePane | src/app/MainWindow.cpp:977-1049 | Refused for one pane, for panes that are whole pages and across pages; otherwise the page's leaves are as asked, no other page changes and the source becomes active. |
| MainWindows.MainWindow.ClosePane | src/app/MainWindow.cpp:1198-1225 | Closes that terminal and no other leaf, or the whole page if it held no other terminal; the invariants stay. The active pane is the first of a page put back or shown, or the page that is one terminal, or where the focus falls. |
| MainWindows.MainWindow.CloseTab | src/app/MainWindow.cpp:1275-1289 | Removes that page and no other; the first terminal of the page shown instead becomes active, and otherwise an active pane that was on it is forgotten. |
| MainWindows.MainWindow.OnCurrentTabChanged | src/app/MainWindow.cpp:1291-1301 | Every page has a first terminal, which becomes the active one when the page is shown. |
| MainWindows.ShowsFirst | src/app/MainWindow.cpp:1291-1301 | That is the leftmost one: only pickers come before it. |
| MainWindows.MainWindow.AddTerminalTab | src/app/MainWindow.cpp:909-919 | A new page with one new terminal, which is the active one. |
| MainWindows.MainWindow.ActiveIsThere | src/app/MainWindow.cpp:963-975 | The pane that operations act on is a terminal of the window. |
| HexRows.HexPartOnly | src/terminal/HexDumpWidget.cpp:20-37 | The loop gives two digits a byte with a space after each group but the last: the column that `HexRows.RowReads` reads back. |
| HexRows.FormatRow | src/terminal/HexDumpWidget.cpp:187-197 | The row as `HexRows.RowReads` and `HexRows.RowLooks` know it. |
| HexRows.RowReads | src/terminal/HexDumpWidget.cpp:187-197 | A row reads back to its offset and its bytes, by one reading for all groupings. |
| HexRows.RowLooks | src/terminal/HexDumpWidget.cpp:187-197 | Every character of a row: eight digits of offset or more, two spaces, each byte's digits at its place with a space after every group of one, two or four but the last, blanks up to the width of sixteen bytes, and between bars each byte as text, or a dot. |
| HexDump.TrimsAlike | src/terminal/HexDumpWidget.cpp:134-140 | Trimming after each addition drops what trimming once would; so what is dropped depends on how much came, not on its chunks. |
| HexDump.DisplayReads | src/terminal/HexDumpWidget.cpp:99-153 | Every line shown reads back to sixteen bytes received, under their offset in the stream. |
| HexDump.HexDumpWidget.AppendData | src/terminal/HexDumpWidget.cpp:99-153 | After any additions the text is the display of all that was received - the one a rebuild gives - the buffer holds the bytes not dropped and no more than the cap, and fewer than sixteen are not shown yet. |
| HexDump.HexDumpWidget.RebuildDisplay | src/terminal/HexDumpWidget.cpp:173-185 | The full rebuild gives that display too. |
| HexDump.HexDumpWidget.SetGrouping | src/terminal/HexDumpWidget.cpp:163-171 | The display becomes that of the new grouping. |
| HexDump.HexDumpWidget.Clear | src/terminal/HexDumpWidget.cpp:155-161 | Starts over with nothing received. |
| Shortcuts.TableFacts | src/core/ShortcutManager.cpp:38-69 | The built-in commands have distinct names, none that of a custom shortcut, and no two of one scope share a default key. |
| Shortcuts.DefaultKeys | src/core/ShortcutManager.cpp:38-69 | Each default key is that of its one holder, and the first seventeen commands are the main window's. |
| Shortcuts.AcceptableIff | src/core/ShortcutManager.cpp:270-282 | With Ctrl, Alt or Meta any key will do; without, only F1 to F35 will, shifted or not. |
| Shortcuts.DefaultsAcceptable | src/core/ShortcutManager.cpp:38-69 | A default can always be asked for. |
| Shortcuts.KeyAfter | src/core/ShortcutManager.cpp:140-171 | Setting a key gives the command the first chord asked for, whether it ends up stored or as the default again, and changes no other command's key. |
| Shortcuts.AssignKeepsUnique | src/ui/ShortcutsPage.cpp:285-308 | Freeing the holder that was found and then giving a single chord leaves no key with two commands in a scope. |
| Shortcuts.GivingKeepsUniqueIff | src/core/ShortcutManager.cpp:140-171 | Giving a command a key leaves no key with two commands if and only if no rival has its first chord. |
| Shortcuts.AssignKeepsUniqueIff | src/ui/ShortcutsPage.cpp:285-308 | Freeing the holder found for the whole sequence and then giving it does so if and only if it is one chord at most, the command is unknown, or no rival has its first chord. |
| Shortcuts.TwoChordsCollide | src/core/ShortcutManager.cpp:240-257 | With the defaults, two chords asked for one command leave a key with two. |
| Shortcuts.ResetKeeps | src/ui/ShortcutsPage.cpp:337-354 | Defaults for all commands and no key for custom shortcuts on a default: again no key has two commands. |
| Shortcuts.DefaultsAreSound | src/core/ShortcutManager.cpp:38-69 | The defaults alone are free of conflicts. |
| ShortcutsPages.ShortcutManager.SetSequence | src/core/ShortcutManager.cpp:140-171 | Stores the key, or forgets the override when it is the default; nothing that is stored equals its default. |
| ShortcutsPages.ShortcutManager.ConflictingCommand | src/core/ShortcutManager.cpp:240-257 | Finds a command of the same scope that has the key; finding none means there is none. |
| ShortcutsPages.ShortcutManager.Sequence | src/core/ShortcutManager.cpp:118-133 | The scan finds the key in effect. |
| ShortcutsPages.ShortcutManager.UpdateCustom | src/core/ShortcutManager.cpp:199-210 | The first custom shortcut of that name is replaced, with one chord, and no other. |
| ShortcutsPages.ShortcutManager.RemoveCustom | src/core/ShortcutManager.cpp:212-222 | The first custom shortcut of that name goes, and no other. |
| ShortcutsPages.ShortcutsPage.Assign | src/ui/ShortcutsPage.cpp:285-308 | For any sequence: it goes through exactly when it is acceptable and free, or may be taken; then the command has its first chord, its holder none, and all others theirs; else nothing changes. Keys stay unique exactly under the condition of `Shortcuts.AssignKeepsUniqueIff`. |
| ShortcutsPages.ShortcutsPage.ChangeSelected | src/ui/ShortcutsPage.cpp:310-320 | Assigns the first chord captured, if the user goes on; cancelling or declining changes nothing; keys stay unique. |
| ShortcutsPages.ShortcutsPage.ClearSelected | src/ui/ShortcutsPage.cpp:322-327 | That command has no key afterwards, and every other keeps its own. |
| ShortcutsPages.ShortcutsPage.ResetSelected | src/ui/ShortcutsPage.cpp:329-335 | A reset claims the default like any other key: only its holder loses one, and declining changes nothing. |
| ShortcutsPages.ShortcutsPage.ResetAll | src/ui/ShortcutsPage.cpp:337-360 | The loop that unbinds custom shortcuts clears exactly those on a main-window default, and no others. |
| ShortcutsPages.ShortcutsPage.AddCustom | src/ui/ShortcutsPage.cpp:362-379 | The new shortcut is there with its key, or nothing has changed; keys stay unique. |
| ShortcutsPages.ShortcutsPage.EditSelectedCustom | src/ui/ShortcutsPage.cpp:381-400 | The text changes at once; the key is given if it is free or may be taken, and otherwise all keys stay, the edited one's too. Keys stay unique. |
| ShortcutsPages.ShortcutsPage.DeleteSelectedCustom | src/ui/ShortcutsPage.cpp:402-413 | That shortcut goes and every other key stays. |
| SftpPool.SwitchSound | src/ui/SftpDock.cpp:689-797 | The same connection again changes nothing. Whatever pane comes next, every session ever made is in one place - in use, kept under the key it was made for, or closed, and closed once; six at most are kept and the active key never is. |
| SftpPool.BackWithoutLoginIff | src/ui/SftpDock.cpp:760-797 | Coming back to a kept connection makes no session unless keeping the present one throws that very session out. |
| SftpPool.FullPoolCanLose | src/ui/SftpDock.cpp:702-706 | Which a run of seven panes can lead to. |
| SftpPool.LeavingKeeps | src/ui/SftpDock.cpp:689-728 | Leaving a connection that got connected keeps its session and home folder and closes at most one other, when six are kept; leaving any other closes its session alone. |
| SftpKeys.KeyTells | src/ui/SftpDock.cpp:684-687 | Connections without percent signs in their names, nor `@` in their hosts', have different keys. |
| SftpKeys.KeyIsOwnIff | src/ui/SftpDock.cpp:684-687 | Over all connections: one shares its key with no other if and only if neither name contains `@`, a place marker up to %3, or the port's digits with no such marker before them. |
| SftpKeys.KeysCanClash | src/ui/SftpDock.cpp:684-687 | Two literal connections with an `@` in a name share a key. |
| SftpKeys.ZonesCanClash | src/ui/SftpDock.cpp:684-687 | So do two literal IPv6 hosts that differ in their zone, without an `@`. |
| SftpKeys.KeyLooks | src/ui/SftpDock.cpp:684-687 | The markers of the lowest number in user, host and template - and no others - become the port, each name by itself. |
| SftpKeys.DecimalReads | src/ui/SftpDock.cpp:684-687 | The port is written in tens, without a zero too many. |
| SftpPool.SharedKeySharesSession | src/ui/SftpDock.cpp:760-797 | Switching between two connections of one key hands the first one's session to the second and makes none. |
| SftpPool.ClashHandsOver | src/ui/SftpDock.cpp:760-797 | A run from an empty pool in which that happens to two literal connections. |
| SftpPool.OwnKeyOwnSession | src/ui/SftpDock.cpp:760-797 | A switch to a different connection whose key is its own never takes over the session in use. |
| SftpDocks.SftpDock.ParkSession | src/ui/SftpDock.cpp:689-728 | Keeps a session that got connected, for one other if six are kept, and closes one that did not. |
| SftpDocks.SftpDock.SetActiveConnection | src/ui/SftpDock.cpp:760-797 | Is the switch of the pool, and keeps every session in one place. |
| SftpDocks.SftpDock.OnConnected | src/ui/SftpDock.cpp:814-819 | Getting its home folder makes a session worth keeping and moves none. |
| SftpDocks.SftpDock.KeepOnly | src/ui/SftpDock.cpp:730-744 | Exactly the kept sessions whose key is in use stay kept; the others are closed, once. |
| SftpDocks.SftpDock.ParkedDisconnected | src/ui/SftpDock.cpp:709-720 | A kept session that drops is forgotten and closed; a session that is not kept is not touched. |
| SftpDocks.SftpDock.Destroy | src/ui/SftpDock.cpp:674-682 | At the end every session that was ever made has been closed exactly once. |
| SftpTree.PathTells | src/sftp/SftpModel.cpp:11-14 | In a tree whose siblings have different slash-free names, full paths tell nodes apart, also when the root's path ends in a slash. |
| SftpTree.JoinsAPath | src/sftp/SftpModel.cpp:11-14 | A joined path goes on from the folder's, has the name behind its last slash, and has no empty part if the folder's has none. |
| SftpTree.AllRooted | src/sftp/SftpModel.cpp:11-14 | So under a proper root path every node's path is proper. |
| SftpTree.IndexIsOne | src/sftp/SftpModel.cpp:69-77 | A tree has only one index from paths to nodes. |
| SftpTree.WithChildKeeps | src/sftp/SftpModel.cpp:130-140 | A new child keeps tree and index in step. |
| SftpTree.IndexableIff | src/sftp/SftpModel.cpp:168-186 | For a name that is not empty and has no slash: an index of the tree with the new child exists if and only if the name is new to the folder. |
| SftpTree.IndexedIff | src/sftp/SftpModel.cpp:74-77 | For any name: the index with the new path put in is that of the tree with the new child if and only if no node has that path. |
| SftpTree.FilledIndexedIff | src/sftp/SftpModel.cpp:129-142 | For any listing: the index after it is that of the tree if and only if the joined paths differ and none is held by a node that remains. |
| SftpTree.SecondOfAName | src/sftp/SftpModel.cpp:168-186 | A literal folder whose index loses a node to a second child of the same name. |
| SftpTree.InStepIff | src/sftp/SftpModel.cpp:130-140 | The invariant of tree and index - shape, names and paths - survives a new child if and only if its name is new, not empty and without slashes. |
| SftpTree.ShapedIsListing | src/sftp/SftpModel.cpp:112-147 | The shape survives a listing only if its names are such, each once. |
| SftpTree.PrunedKeeps | src/sftp/SftpModel.cpp:120-127 | So does taking children away with all that is below them. |
| SftpTree.ListingShows | src/sftp/SftpModel.cpp:112-147 | After a listing the folder holds the entries in order and nothing it held before, and no node outside it has changed. |
| SftpTree.ParentOfIndex | src/sftp/SftpModel.cpp:188-207 | Whatever is at a row and column under an index has that index as its parent. |
| SftpTree.IndexOfParent | src/sftp/SftpModel.cpp:88-98 | Every node is found at its own row under its parent's index. |
| SftpTree.NothingElse | src/sftp/SftpModel.cpp:188-197 | Only the root and an index in the first column have rows, of four columns each. |
| SftpModels.SftpModel.RemoveFromCache | src/sftp/SftpModel.cpp:79-86 | The recursion forgets the paths of the node and of all below it, and no other. |
| SftpModels.SftpModel.SetRoot | src/sftp/SftpModel.cpp:49-60 | Leaves a new tree and its index. |
| SftpModels.SftpModel.ApplyDirectoryListing | src/sftp/SftpModel.cpp:112-147 | For any listing the new tree and index are given, of two entries with one path the later being found. The index is that of the tree if and only if the joined paths differ and none is still held; the whole invariant survives if and only if the names are different, not empty and without slashes. Paths the model does not hold are ignored. |
| SftpModels.SftpModel.RemoveEntry | src/sftp/SftpModel.cpp:149-166 | Keeps tree and index in step; the root and unknown paths are left alone. |
| SftpModels.SftpModel.AddPlaceholderDirectory | src/sftp/SftpModel.cpp:168-186 | For any name the new tree and index are given. The index is that of the tree if and only if no node has the path; the whole invariant survives if and only if the name is new, not empty and without slashes. Does nothing under a folder not listed. |
| SftpModels.SftpModel.MarkLoading | src/sftp/SftpModel.cpp:100-110 | Marks the node of that path, if there is one; shape and index stay. |
| SftpModels.SftpModel.IndexForPath | src/sftp/SftpModel.cpp:307-310 | Finds an index if and only if some node other than the root has that path, and then that node's. |
| SftpModels.SftpModel.PathForIndex | src/sftp/SftpModel.cpp:297-300 | The path of an index is one under which its node is found. |

## Left out

- ShortcutsPages.ShortcutsPage.AddCustom: identifiers of new custom shortcuts are unique, and the form has been filled in with one acceptable chord, as its dialog ensures.
- Zrle.TileRoundTrip: stops at 126 colours for palette runs. For size 127 the client reads no palette and indexes an array it has not initialised, so sub-encoding 255 has no encoder that it undoes. The model takes those colours to be black; results stated for every stream are idealised for that sub-encoding.
- Zero-width and zero-height rectangles are decoded as the program does, but the round trips start at one pixel.
- RFB: sockets, reconnecting with an older protocol version, closing, pointer, key and clipboard messages; reuse of a client after a session. Messages to the server are events, not bytes. Time and byte counters other than rectangles and updates are not kept, and rectangles are counted together instead of by encoding.
- RFB: sizes are unbounded integers; the program's 32-bit products overflow only beyond two gigabytes. Failure to set up a zlib stream or to allocate an image is not modelled.
- RFB: after a failure the program's socket is closed; in the model bytes may still arrive and are kept unread.
- RFB: the client's many fields are grouped into records (link, streams, batch, current rectangle).
- Text is kept as bytes or characters; no character set conversion.
- Telnet: only a WONT turns size reports off, as in the program; a DONT does not. The socket's own errors are left out.
- X11: choosing the local display, reading its cookie, opening and closing sockets and channels; connections are marked closed instead of being freed.
- Panes: a picker's handlers are not followed into deleted widgets. Giving a terminal the focus is taken to make it the active one at once, as it does in the window that has the keyboard; which page the tab bar shows after one is removed, and where the focus of a deleted widget falls, are parameters.
- Panes: sizes, icons, menus, windows other than one, detaching of tabs, restoring of saved sessions, the welcome tab.
- Hex dump: the scroll position and search.
- Shortcuts: the settings file, labels and categories, the send-text escapes.
- SFTP dock: a place marker with an L takes the port as the C locale writes it; other locales may group its digits. Browsing history, transfers, and what a session does while it is in use. Only user, host and port of a connection are kept, the parts the dock compares. Which session makes room in a full pool is left to choice, as a hash has no order of its own.
- SFTP model: dates, sizes and types as text, drag flags; deleting a node with all below it is one step.
