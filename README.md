# A verified model of the monocle-project iOS core

This project models four pieces of the Brilliant Labs iOS apps (arGPT and Noa) in Dafny and
proves properties of them:

- **Bluetooth** (`bluetooth.dfy`): the `NewBluetoothManager` connection manager of arGPT.
  - Class `Manager` holds the manager's state:
    - enabled flag, adapter power state, scanning flag;
    - current and selected peripheral;
    - discovery list of `(peripheral, timeout)` entries and the published device list;
    - characteristic table;
    - once-per-session "connected event sent" flag.
  - Each CoreBluetooth delegate callback is a method. Its inputs (peripheral, name, RSSI, time, UUIDs) are parameters.
  - Every call into CoreBluetooth is a `Command` appended to `calls`.
  - Every value sent on a Combine subject is an `Event` appended to `events`.
- **ColorQuantization** (`color_quantization.dfy`): `quantizeColors` from Noa's `ColorQuantization.cpp`.
  - It is a median-cut quantizer that turns a 32-bit ABGR/ARGB `CVPixelBuffer` into a palette of `numColors` entries and a 4-bit image, two colour indices per byte.
  - The pixel buffer is its geometry (`Layout`: width, height, bytes per row, format) plus a byte array.
- **ColorOutput** (`color_output.dfy`): the two post-processing steps of the same file.
  - `setDarkestColorToBlackAndIndex0`: the palette exchange and the byte lookup table.
  - `applyColorsToPixelBuffer`: paints the palette colours back into the 32-bit buffer.
- **AIAssistant** (`ai_assistant.dfy`): the chat-history and completion-handler bookkeeping of Noa's OpenAI client (`AIAssistant.swift`).
  - The `messages` payload is a sequence of role/content pairs whose first element is the system message.
  - `completionByTask` is a map from task identifier to the number of the `send` call whose handler it stores.
  - Calling a handler appends a `Delivery` to a log.
- **PcmBufferExtensions** (`pcm_buffer.dfy`): the `AVAudioPCMBuffer` extension of Noa.
  - Mono 16-bit buffers are built from 8-bit and 16-bit microphone bytes.
  - The noise gate and compressor are modelled over real-valued samples.
  - `convertToCMSampleBuffer` is modelled with the CoreMedia call results as inputs.
- `wrappers.dfy` supplies `Option`.

### Behaviour modelled as the code is written

- **Discovery-list sweep.** `updateDiscoveredPeripherals` (NewBluetoothManager.swift:211) runs `removeAll { $0.timeout >= now }`. This removes the entries whose timeout is still ahead and keeps the expired ones. After an update, the only entry whose timeout is not in the past is the sighting just appended (`Bluetooth.UpdatedEntries`).
- **Failed connect.** `didFailToConnect` (lines 383-397) does not restart scanning. `didDisconnect` does, when enabled.
- **Disconnect event.** `forgetPeripheral` (line 198) publishes `peripheralDisconnected` on every teardown, even when `peripheralConnected` was never published for that peripheral.
- **Readiness test.** The test at line 285 compares only sizes. The model proves that, given the table invariant, equal sizes mean every configured characteristic was acquired (`Bluetooth.SameSizeSubsetIsEqual`).
- **Widest channel.** `findColorChannelWithLargestRange` sends every tie to blue. That includes a red/green tie above blue, where blue is narrower than the channel it displaces.
- **Darkest-colour table.** The header describes `setDarkestColorToBlackAndIndex0` as adjusting all image pixels. Its lookup table (ColorQuantization.cpp:441-444), however, only rewrites bytes whose two nibbles are both 0 or `d`.
  - A pixel sharing its byte with any other index keeps index 0.
  - That pixel is then painted black instead of its old colour (`ColorOutput.MixedByteChangesColor`).
  - The model follows the code.

## Model

| member | source | states |
|---|---|---|
| Bluetooth.Swept | ios/arGPT/arGPT/Bluetooth/NewBluetoothManager.swift:211 | An entry survives the sweep iff it was in the list and its timeout is already past: the code as written keeps the expired entries |
| Bluetooth.WithoutPeripheral | ios/arGPT/arGPT/Bluetooth/NewBluetoothManager.swift:215 | An entry survives iff it was in the list and belongs to another peripheral |
| Bluetooth.SweptKeepsUnique | ios/arGPT/arGPT/Bluetooth/NewBluetoothManager.swift:211 | The sweep never creates two entries for one peripheral |
| Bluetooth.WithoutPeripheralKeepsUnique | ios/arGPT/arGPT/Bluetooth/NewBluetoothManager.swift:215 | Removing a peripheral's entries never creates two entries for one peripheral |
| Bluetooth.UpdatedEntries | ios/arGPT/arGPT/Bluetooth/NewBluetoothManager.swift:211-217 | A sighted peripheral is the last entry, with timeout now + 10, and has no other entry; every entry with a timeout not in the past is that sighting; every other entry came from the old list |
| Bluetooth.UpdatedEntriesKeepUnique | ios/arGPT/arGPT/Bluetooth/NewBluetoothManager.swift:211-217 | A list without duplicate peripherals stays without duplicates after an update |
| Bluetooth.Republishes | ios/arGPT/arGPT/Bluetooth/NewBluetoothManager.swift:220 | The republish test: the list is non-empty and its size changed or a peripheral was sighted; used by the update and callback contracts |
| Bluetooth.Chunks | ios/arGPT/arGPT/Bluetooth/NewBluetoothManager.swift:296-300 | The slices data[idx..min(idx + C, N)] for idx = 0, C, 2C, …; ChunksReassemble and ChunkSizes state what they are |
| Bluetooth.Writes | ios/arGPT/arGPT/Bluetooth/NewBluetoothManager.swift:297-300 | One writeValue call per chunk; WritesCarryChunks states that call i carries chunk i |
| Bluetooth.ChunksReassemble | ios/arGPT/arGPT/Bluetooth/NewBluetoothManager.swift:294-302 | The chunks of a payload, concatenated in order, are the payload |
| Bluetooth.ChunkSizes | ios/arGPT/arGPT/Bluetooth/NewBluetoothManager.swift:294-302 | An N-byte payload with maximum write length C gives ⌈N/C⌉ chunks (none for an empty payload); each has 1 to C bytes and all but the last have exactly C |
| Bluetooth.WritesCarryChunks | ios/arGPT/arGPT/Bluetooth/NewBluetoothManager.swift:297-300 | Write i sends chunk i to the chosen characteristic with the chosen write type |
| Bluetooth.WriteStep | ios/arGPT/arGPT/Bluetooth/NewBluetoothManager.swift:296-300 | One loop round issues the chunk from idx to min(idx + C, N) and leaves the writes of the rest of the payload |
| Bluetooth.AcquiredAppend | ios/arGPT/arGPT/Bluetooth/NewBluetoothManager.swift:270-282 | Recording one more discovered characteristic adds it to the table iff it is configured, against the given service |
| Bluetooth.CharacteristicRequests | ios/arGPT/arGPT/Bluetooth/NewBluetoothManager.swift:247-251 | One characteristic discovery per service, in service order, each asking for all configured characteristics |
| Bluetooth.SameSizeSubsetIsEqual | ios/arGPT/arGPT/Bluetooth/NewBluetoothManager.swift:285 | For a table holding only configured characteristics, the size test succeeds iff every configured characteristic is present |
| Bluetooth.ConnectedEventsAppend | ios/arGPT/arGPT/Bluetooth/NewBluetoothManager.swift:286-288 | Publishing an event raises the session's count of peripheralConnected events by one iff it is a peripheralConnected event |
| Bluetooth.Manager.constructor | ios/arGPT/arGPT/Bluetooth/NewBluetoothManager.swift:115-141 | The manager starts disabled, unconnected, with no selection, nothing discovered, an empty table and the configured name, services and characteristic sets |
| Bluetooth.Manager.SelectedDeviceIdDidSet | ios/arGPT/arGPT/Bluetooth/NewBluetoothManager.swift:34-42 | A connection is cancelled exactly when a peripheral is current and the selected id is not its id (a cleared selection also cancels) |
| Bluetooth.Manager.SetSelectedDeviceId | ios/arGPT/arGPT/Bluetooth/NewBluetoothManager.swift:33-43 | The selection takes the new value, and the current connection is cancelled iff the new value is not its id |
| Bluetooth.Manager.ConnectedPeripheralDidSet | ios/arGPT/arGPT/Bluetooth/NewBluetoothManager.swift:100-109 | isConnected equals "a peripheral is current"; a missing selection is filled with the current peripheral; no connection is cancelled |
| Bluetooth.Manager.SetEnabled | ios/arGPT/arGPT/Bluetooth/NewBluetoothManager.swift:57-75 | Enabling while powered on starts a scan; otherwise scanning stops when powered on and any current connection is cancelled, with the selection kept |
| Bluetooth.Manager.StartScan | ios/arGPT/arGPT/Bluetooth/NewBluetoothManager.swift:164-177 | Scans for the configured services and schedules the discovery timer |
| Bluetooth.Manager.ForgetCharacteristics | ios/arGPT/arGPT/Bluetooth/NewBluetoothManager.swift:202-204 | The characteristic table becomes empty |
| Bluetooth.Manager.ConnectPeripheral | ios/arGPT/arGPT/Bluetooth/NewBluetoothManager.swift:179-191 | With no current peripheral: connects, makes the peripheral current (and selected when none was), empties the table, stops scanning, starts a session with no connected event sent |
| Bluetooth.Manager.ForgetPeripheral | ios/arGPT/arGPT/Bluetooth/NewBluetoothManager.swift:193-200 | No current peripheral, empty table, flag reset, and exactly one peripheralDisconnected published, whatever was published before |
| Bluetooth.Manager.UpdateDiscoveredPeripherals | ios/arGPT/arGPT/Bluetooth/NewBluetoothManager.swift:206-227 | The list becomes the updated entries; the device list is republished, as the list's ids in order, only when the list is non-empty and its size changed or a peripheral was sighted |
| Bluetooth.Manager.DiscoverCharacteristicsOfServices | ios/arGPT/arGPT/Bluetooth/NewBluetoothManager.swift:242-253 | Without a current peripheral or a services list nothing happens; otherwise the table is emptied and each service's characteristics are requested in order |
| Bluetooth.Manager.RecordCharacteristics | ios/arGPT/arGPT/Bluetooth/NewBluetoothManager.swift:270-282 | Configured characteristics are recorded against the service, others ignored, and each receive characteristic is subscribed to in order |
| Bluetooth.Manager.SaveCharacteristics | ios/arGPT/arGPT/Bluetooth/NewBluetoothManager.swift:266-290 | Without a current peripheral nothing changes; otherwise configured characteristics are recorded and peripheralConnected is published iff the table now holds every configured characteristic and it was not yet published this session |
| Bluetooth.Manager.PublishConnectedOnce | ios/arGPT/arGPT/Bluetooth/NewBluetoothManager.swift:284-289 | peripheralConnected is published iff the table is complete and was not announced this session; the flag records that it was |
| Bluetooth.Manager.WriteData | ios/arGPT/arGPT/Bluetooth/NewBluetoothManager.swift:294-302 | The calls issued are exactly the writes of the payload's chunks, in order |
| Bluetooth.Manager.Send | ios/arGPT/arGPT/Bluetooth/NewBluetoothManager.swift:143-156 | Nothing is written unless the characteristic is in the table and a peripheral is connected; otherwise the payload goes out as its chunk writes to that peripheral |
| Bluetooth.Manager.CentralManagerDidUpdateState | ios/arGPT/arGPT/Bluetooth/NewBluetoothManager.swift:310-337 | Records the adapter state; powering on while enabled starts a scan, any other state issues nothing |
| Bluetooth.Manager.DidDiscover | ios/arGPT/arGPT/Bluetooth/NewBluetoothManager.swift:339-368 | Another name only sweeps the list and never connects; the configured name enters the list, and with no current peripheral it connects iff it is the selected one or auto-connect is on and RSSI ≥ −70; the device list is republished under the update rule, counting a matching name as a sighting |
| Bluetooth.Manager.DidConnect | ios/arGPT/arGPT/Bluetooth/NewBluetoothManager.swift:370-381 | The configured services are discovered iff the peripheral is the current one |
| Bluetooth.Manager.DidFailToConnect | ios/arGPT/arGPT/Bluetooth/NewBluetoothManager.swift:383-397 | Another peripheral changes nothing; for the current one the session is torn down (peripheralDisconnected published) and the list swept, with the device list republished under the update rule; scanning is not restarted |
| Bluetooth.Manager.DidDisconnect | ios/arGPT/arGPT/Bluetooth/NewBluetoothManager.swift:399-416 | Another peripheral changes nothing; for the current one the session is torn down, scanning and the discovery timer restart iff enabled, and the list is swept, with the device list republished under the update rule |
| Bluetooth.Manager.DiscoveryTimerFired | ios/arGPT/arGPT/Bluetooth/NewBluetoothManager.swift:174-176 | The timer sweeps the list with no sighting and republishes only under the update rule |
| Bluetooth.Manager.DidDiscoverServices | ios/arGPT/arGPT/Bluetooth/NewBluetoothManager.swift:420-433 | Only a successful discovery on the current peripheral acts: the table is emptied and characteristics are discovered for every service |
| Bluetooth.Manager.DidModifyServices | ios/arGPT/arGPT/Bluetooth/NewBluetoothManager.swift:435-452 | For the current peripheral the table is emptied iff a configured service was invalidated, then services are rediscovered; the session's connected flag is kept, so readiness is not announced twice |
| Bluetooth.Manager.DidDiscoverCharacteristics | ios/arGPT/arGPT/Bluetooth/NewBluetoothManager.swift:454-462 | For the current peripheral the service's characteristics are saved as by saveCharacteristics; other peripherals change nothing |
| Bluetooth.Manager.DidUpdateValue | ios/arGPT/arGPT/Bluetooth/NewBluetoothManager.swift:464-478 | A value is published iff there is no error, a value is present and the characteristic is a receive one |
| ColorQuantization.ReadPixel | ios/Noa/Noa/Util/ColorQuantization/ColorQuantization.cpp:36-53 | The pixel keeps its coordinates; ABGR takes red, green, blue from offsets +3, +2, +1 of y·stride + x·4, ARGB from +1, +2, +3 |
| ColorQuantization.ChannelLess | ios/Noa/Noa/Util/ColorQuantization/ColorQuantization.cpp:60-73 | The three comparators: pixel 1 is below pixel 2 on the channel; ChannelLessIsStrictWeakOrder states its order properties |
| ColorQuantization.ChannelLessIsStrictWeakOrder | ios/Noa/Noa/Util/ColorQuantization/ColorQuantization.cpp:60-73 | Each comparator is irreflexive and transitive, and two pixels are incomparable exactly when their channel values are equal, as std::sort requires |
| ColorQuantization.PixelInBuffer | ios/Noa/Noa/Util/ColorQuantization/ColorQuantization.cpp:45-52 | In a buffer that holds every row, the four bytes of any pixel of the frame are in bounds |
| ColorQuantization.ChannelMinIsMinimum | ios/Noa/Noa/Util/ColorQuantization/ColorQuantization.cpp:79-94 | For a non-empty bucket the running min that starts from 255 is the channel's smallest value |
| ColorQuantization.ChannelMaxIsMaximum | ios/Noa/Noa/Util/ColorQuantization/ColorQuantization.cpp:79-94 | For a non-empty bucket the running max that starts from 0 is the channel's largest value |
| ColorQuantization.ChannelRangeOfNonEmpty | ios/Noa/Noa/Util/ColorQuantization/ColorQuantization.cpp:96-98 | For a non-empty bucket the uint8 difference does not wrap: it is max − min, and every value lies between them |
| ColorQuantization.LargestRange | ios/Noa/Noa/Util/ColorQuantization/ColorQuantization.cpp:77-109 | Red (green) is chosen iff its range strictly exceeds both others, blue otherwise; the result carries the chosen channel's range; it is the widest channel unless red and green tie above blue; an empty bucket gives (Blue, 1) |
| ColorQuantization.FoldStep | ios/Noa/Noa/Util/ColorQuantization/ColorQuantization.cpp:86-94 | Extending the scan by one pixel applies std::min and std::max once more |
| ColorQuantization.ChannelBounds | ios/Noa/Noa/Util/ColorQuantization/ColorQuantization.cpp:79-94 | The scanning loop returns each channel's running min and max |
| ColorQuantization.FindColorChannelWithLargestRange | ios/Noa/Noa/Util/ColorQuantization/ColorQuantization.cpp:77-109 | The imperative scan returns the channel and range of LargestRange |
| ColorQuantization.WidestBucketIsWidest | ios/Noa/Noa/Util/ColorQuantization/ColorQuantization.cpp:111-137 | No non-empty bucket has a larger range than the chosen one |
| ColorQuantization.WidestBucketIsChosen | ios/Noa/Noa/Util/ColorQuantization/ColorQuantization.cpp:111-137 | With no positive range the result is (0, Red); otherwise the index names a non-empty bucket whose widest channel and range are the ones recorded |
| ColorQuantization.WidestBucketIsFirst | ios/Noa/Noa/Util/ColorQuantization/ColorQuantization.cpp:128-133 | Ties go to the first: every earlier non-empty bucket has a strictly smaller range |
| ColorQuantization.FindBucketWithLargestColorRange | ios/Noa/Noa/Util/ColorQuantization/ColorQuantization.cpp:111-137 | The loop returns the index and channel of WidestBucket |
| ColorQuantization.InsertByChannel | ios/Noa/Noa/Util/ColorQuantization/ColorQuantization.cpp:139-153 | Inserting a pixel into a sorted bucket keeps it sorted on the channel and adds exactly that pixel |
| ColorQuantization.SortBucketByColorChannel | ios/Noa/Noa/Util/ColorQuantization/ColorQuantization.cpp:139-153 | The bucket is reordered so that no pixel compares less than an earlier one on the channel, and it is a permutation of the input |
| ColorQuantization.MedianSplitIsOrdered | ios/Noa/Noa/Util/ColorQuantization/ColorQuantization.cpp:222-224 | Cutting a sorted bucket puts no pixel of the upper part below one of the lower part |
| ColorQuantization.SplitKeepsPixels | ios/Noa/Noa/Util/ColorQuantization/ColorQuantization.cpp:222-224 | Replacing a bucket by a permuted copy's lower part and appending its upper part keeps the multiset of all pixels |
| ColorQuantization.SplitBucket | ios/Noa/Noa/Util/ColorQuantization/ColorQuantization.cpp:211-224 | One more bucket; other buckets unchanged; the split bucket keeps size/2 pixels and the new last bucket the rest; the halves are a permutation of the bucket, ordered on its widest channel; all pixels kept |
| ColorQuantization.CutRound | ios/Noa/Noa/Util/ColorQuantization/ColorQuantization.cpp:203-225 | A full pass adds one bucket per bucket visited; a pass that stops at a small bucket adds fewer |
| ColorQuantization.CutRoundKeepsPixels | ios/Noa/Noa/Util/ColorQuantization/ColorQuantization.cpp:203-225 | A pass keeps every pixel, creates no empty bucket, and stops only at a bucket of fewer than two pixels |
| ColorQuantization.MedianCutFrom | ios/Noa/Noa/Util/ColorQuantization/ColorQuantization.cpp:199-226 | The median cut ends with between 1 and numColors buckets |
| ColorQuantization.MedianCutKeepsPixels | ios/Noa/Noa/Util/ColorQuantization/ColorQuantization.cpp:199-226 | The buckets hold exactly the original pixels, none is empty, and fewer than numColors buckets remain only after meeting a bucket of fewer than two pixels |
| ColorQuantization.MedianCut | ios/Noa/Noa/Util/ColorQuantization/ColorQuantization.cpp:186-226 | The loop computes MedianCutFrom of the single starting bucket |
| ColorQuantization.CutPass | ios/Noa/Noa/Util/ColorQuantization/ColorQuantization.cpp:202-225 | The inner for loop computes one CutRound over the buckets present when it starts |
| ColorQuantization.SplitAt | ios/Noa/Noa/Util/ColorQuantization/ColorQuantization.cpp:211-224 | The loop body computes SplitBucket |
| ColorQuantization.RasterPixels | ios/Noa/Noa/Util/ColorQuantization/ColorQuantization.cpp:186-196 | The first bucket holds every pixel of the frame once, in raster order, each read from its own offset |
| ColorQuantization.RasterHasNoRepeats | ios/Noa/Noa/Util/ColorQuantization/ColorQuantization.cpp:190-196 | No pixel occurs twice in the first bucket, since raster positions are distinct |
| ColorQuantization.BucketsPartitionRaster | ios/Noa/Noa/Util/ColorQuantization/ColorQuantization.cpp:199-226 | Buckets holding the raster's pixels lie in the frame, and no two of their pixels share a raster position |
| ColorQuantization.ChannelSumBounds | ios/Noa/Noa/Util/ColorQuantization/ColorQuantization.cpp:238-243 | A channel sum lies between size·lo and size·hi when every value lies between lo and hi |
| ColorQuantization.TruncatedMean | ios/Noa/Noa/Util/ColorQuantization/ColorQuantization.cpp:235-249 | One palette channel: the uint32 sum, divided by the bucket size and truncated to uint8; MeanWithinRange states that it is the floor of the mean while the sum cannot wrap |
| ColorQuantization.MeanWithinRange | ios/Noa/Noa/Util/ColorQuantization/ColorQuantization.cpp:235-249 | While the uint32 sums cannot wrap, each palette channel is the floor of the bucket's mean and lies between the bucket's min and max |
| ColorQuantization.SumBelowModulus | ios/Noa/Noa/Util/ColorQuantization/ColorQuantization.cpp:235-243 | A sum of at most n·255 with n·255 < 2^32 is not changed by uint32 wrap-around |
| ColorQuantization.SumStep | ios/Noa/Noa/Util/ColorQuantization/ColorQuantization.cpp:240-242 | Adding the next pixel to the wrapped running sum gives the wrapped longer sum |
| ColorQuantization.WrappedSums | ios/Noa/Noa/Util/ColorQuantization/ColorQuantization.cpp:235-243 | The three sums equal the exact channel sums modulo 2^32 |
| ColorQuantization.MeanColor | ios/Noa/Noa/Util/ColorQuantization/ColorQuantization.cpp:235-249 | The palette entry is the wrapped sums, divided by the bucket size and truncated to uint8 |
| ColorQuantization.Nibble | ios/Noa/Noa/Util/ColorQuantization/ColorQuantization.cpp:489-492 | The 4-bit index of pixel n: below 16, the high nibble of byte n/2 for an even n and the low nibble for an odd n |
| ColorQuantization.WithNibble | ios/Noa/Noa/Util/ColorQuantization/ColorQuantization.cpp:254-258 | The byte with pixel n's nibble replaced; NibbleAfterWrite and NibbleArithmetic state its effect |
| ColorQuantization.NibbleAfterWrite | ios/Noa/Noa/Util/ColorQuantization/ColorQuantization.cpp:254-258 | Unpacking as at line 492 returns the index just packed, and every other pixel, including the byte's other nibble, keeps its index |
| ColorQuantization.NibbleArithmetic | ios/Noa/Noa/Util/ColorQuantization/ColorQuantization.cpp:256-258 | Writing the high (low) nibble sets it and keeps the low (high) one |
| ColorQuantization.WriteColorIndices | ios/Noa/Noa/Util/ColorQuantization/ColorQuantization.cpp:252-259 | Every pixel of the bucket gets the colour index; every pixel outside the bucket keeps its index |
| ColorQuantization.WriteBuckets | ios/Noa/Noa/Util/ColorQuantization/ColorQuantization.cpp:230-260 | Palette entry k becomes the mean of bucket k and each pixel of bucket k gets index k; later entries are untouched |
| ColorQuantization.ImageBuckets | ios/Noa/Noa/Util/ColorQuantization/ColorQuantization.cpp:169-226 | The frame's pixels in raster order and their median-cut buckets: 1 to numColors non-empty buckets that together hold each pixel once |
| ColorQuantization.PaletteAndIndices | ios/Noa/Noa/Util/ColorQuantization/ColorQuantization.cpp:182-260 | A palette of numColors entries (means of the buckets, black after the last) and a zeroed image of count/2 bytes in which each bucket's pixels carry its index |
| ColorQuantization.QuantizeColors | ios/Noa/Noa/Util/ColorQuantization/ColorQuantization.cpp:155-263 | An unsupported format gives empty outputs; otherwise numColors palette entries (bucket means, then black), width·height/2 output bytes, and every pixel's nibble is the index of the median-cut bucket holding it |
| ColorOutput.RemapByte | ios/Noa/Noa/Util/ColorQuantization/ColorQuantization.cpp:436-450 | What the lookup table does to one byte; LutEntry, RemapChangesExactlyPairs and RemapInvolution state its properties |
| ColorOutput.SwappedPalette | ios/Noa/Noa/Util/ColorQuantization/ColorQuantization.cpp:421-433 | Entry 0 is black, entry d holds the old entry 0 (for d ≠ 0), and every other entry is unchanged |
| ColorOutput.TableCellsDistinct | ios/Noa/Noa/Util/ColorQuantization/ColorQuantization.cpp:441-444 | The four table cells written are distinct bytes, so none overwrites another |
| ColorOutput.LutEntry | ios/Noa/Noa/Util/ColorQuantization/ColorQuantization.cpp:436-444 | The table maps 0x00, d, 16d and 17d to 17d, 16d, d and 0x00, and every other byte to itself |
| ColorOutput.RemapChangesExactlyPairs | ios/Noa/Noa/Util/ColorQuantization/ColorQuantization.cpp:436-450 | For d ≠ 0 a byte changes iff both of its nibbles are 0 or d |
| ColorOutput.RemapInvolution | ios/Noa/Noa/Util/ColorQuantization/ColorQuantization.cpp:436-450 | Remapping twice gives the byte back |
| ColorOutput.RemappedPixelKeepsColor | ios/Noa/Noa/Util/ColorQuantization/ColorQuantization.cpp:421-450 | In a remapped byte each pixel's new index names, in the exchanged palette, the colour its old index had, except that the darkest colour is now black |
| ColorOutput.MixedByteChangesColor | ios/Noa/Noa/Util/ColorQuantization/ColorQuantization.cpp:441-450 | With d = 1 and the byte 0x02 the first pixel keeps index 0 and turns black instead of keeping its colour: the table misses bytes mixing 0 or d with another index |
| ColorOutput.SetDarkestColorToBlackAndIndex0 | ios/Noa/Noa/Util/ColorQuantization/ColorQuantization.cpp:404-451 | The palette becomes SwappedPalette; for d = 0 the pixels are untouched, otherwise each byte is replaced by its table entry |
| ColorOutput.PaintPixel | ios/Noa/Noa/Util/ColorQuantization/ColorQuantization.cpp:494-497 | The four stores of one pixel; keeps the buffer length, and PaintPixelEffect states which bytes it sets |
| ColorOutput.PaintPixelEffect | ios/Noa/Noa/Util/ColorQuantization/ColorQuantization.cpp:494-497 | Painting one pixel sets alpha 0xff, green and the format's red and blue bytes of its slot, and no other byte |
| ColorOutput.PaintRowEffect | ios/Noa/Noa/Util/ColorQuantization/ColorQuantization.cpp:487-498 | Painting a row prefix sets the slots of its pixels to their palette colours and no other byte |
| ColorOutput.PaintRowsEffect | ios/Noa/Noa/Util/ColorQuantization/ColorQuantization.cpp:485-499 | Every pixel of the painted rows carries alpha 0xff and its palette colour; bytes outside the pixel slots (row padding, bytes past the frame) keep their values |
| ColorOutput.PaintedPixelReadsBack | ios/Noa/Noa/Util/ColorQuantization/ColorQuantization.cpp:482-517 | Reading a painted pixel back with the Pixel constructor gives its palette colour, behind alpha 0xff |
| ColorOutput.StorePixel | ios/Noa/Noa/Util/ColorQuantization/ColorQuantization.cpp:494-497 | The four stores of one pixel produce PaintPixel |
| ColorOutput.ApplyColorsToPixelBuffer | ios/Noa/Noa/Util/ColorQuantization/ColorQuantization.cpp:453-523 | An unsupported format or a pixel-count mismatch leaves the buffer unchanged; otherwise it becomes the painted image |
| AIAssistant.ExtractContent | ios/Noa/Noa/AI/AIAssistant.swift:148-170 | Content iff no error; non-JSON is a parse error; an error message is an API error; content is returned; the JSON is kept iff it is an object with an error message or content |
| AIAssistant.ExtractTotalTokensUsed | ios/Noa/Noa/AI/AIAssistant.swift:173-180 | The reported usage.total_tokens, or 0 when there is none |
| AIAssistant.UnknownResponseCountsNoTokens | ios/Noa/Noa/AI/AIAssistant.swift:148-180 | A body yielding neither an error message nor content counts 0 tokens, whatever its usage says |
| AIAssistant.PromptFor | ios/Noa/Noa/AI/AIAssistant.swift:123-129 | The assistant prompt of line 35 for the assistant mode, the translator prompt of line 36 otherwise; WithSystemPrompt uses it |
| AIAssistant.Cleared | ios/Noa/Noa/AI/AIAssistant.swift:76-83 | Exactly the first (system) message remains; a one-message history is unchanged |
| AIAssistant.WithSystemPrompt | ios/Noa/Noa/AI/AIAssistant.swift:123-129 | Only messages[0].content changes, to the assistant or translator prompt of the mode |
| AIAssistant.HistoryAfterResponse | ios/Noa/Noa/AI/AIAssistant.swift:298-313 | At 2000 or more reported tokens the history is cleared and the response dropped; otherwise content is appended as the assistant's turn, and a response without content changes nothing |
| AIAssistant.ResponseKeepsSystemMessage | ios/Noa/Noa/AI/AIAssistant.swift:298-313 | Whatever the response, the system message stays first |
| AIAssistant.TokenLimitResets | ios/Noa/Noa/AI/AIAssistant.swift:308-313 | A response reporting at least 2000 tokens (the limit of line 25) leaves only the system message |
| AIAssistant.Redirected | ios/Noa/Noa/AI/AIAssistant.swift:255-258 | The handler of the old task moves to the new one; every other entry is unchanged; an unknown old task changes nothing |
| AIAssistant.RedirectKeepsInjective | ios/Noa/Noa/AI/AIAssistant.swift:255-258 | A redirect never makes two tasks share a handler |
| AIAssistant.AnyTask | ios/Noa/Noa/AI/AIAssistant.swift:191 | Picks some outstanding task, in the unspecified dictionary order |
| AIAssistant.Assistant.constructor | ios/Noa/Noa/AI/AIAssistant.swift:45-49 | The model, an empty system message and no outstanding task |
| AIAssistant.Assistant.ClearHistory | ios/Noa/Noa/AI/AIAssistant.swift:76-83 | The history becomes Cleared of the old one |
| AIAssistant.Assistant.SetSystemPrompt | ios/Noa/Noa/AI/AIAssistant.swift:123-129 | The history becomes WithSystemPrompt of the old one |
| AIAssistant.Assistant.AppendUserQuery | ios/Noa/Noa/AI/AIAssistant.swift:132-137 | Exactly one user message holding the query is appended |
| AIAssistant.Assistant.AppendAIResponse | ios/Noa/Noa/AI/AIAssistant.swift:140-145 | Exactly one assistant message holding the response is appended |
| AIAssistant.Assistant.PrepareAndStartTask | ios/Noa/Noa/AI/AIAssistant.swift:101-120 | A failed temporary-file write calls the handler at once and stores nothing; otherwise the request starts and the handler is stored under the new task |
| AIAssistant.Assistant.Send | ios/Noa/Noa/AI/AIAssistant.swift:86-98 | Sets the model, overwrites the system prompt, appends the query as the last user message and starts a task owning a new handler |
| AIAssistant.Assistant.DeliverAndRemove | ios/Noa/Noa/AI/AIAssistant.swift:316-318 | A stored handler is called once and removed; an unknown task calls nothing |
| AIAssistant.Assistant.DidReceiveData | ios/Noa/Noa/AI/AIAssistant.swift:297-323 | The history follows the token rule; the task's handler is called once with the content (or "") and the extraction error, and removed |
| AIAssistant.Assistant.DidCompleteWithError | ios/Noa/Noa/AI/AIAssistant.swift:265-283 | A handler still stored gets one network error and is removed |
| AIAssistant.Assistant.DidReceiveTaskChallenge | ios/Noa/Noa/AI/AIAssistant.swift:223-239 | Without a server trust the stored handler gets one authentication error and is removed; with one nothing changes |
| AIAssistant.Assistant.WillPerformRedirection | ios/Noa/Noa/AI/AIAssistant.swift:241-263 | A new task is always started and logged; the old task's handler, if stored, moves to it (Redirected) and no handler is called |
| AIAssistant.Assistant.CallAllWithNetworkError | ios/Noa/Noa/AI/AIAssistant.swift:191-193 | Each stored handler is called exactly once with a network error, in some order of the tasks |
| AIAssistant.Assistant.DidBecomeInvalid | ios/Noa/Noa/AI/AIAssistant.swift:184-196 | Every outstanding handler is called once with a network error and the map is left empty |
| PcmBufferExtensions.SignedByte | ios/Noa/Noa/Util/AVAudioPCMBuffer+Extensions.swift:52 | Int8(bitPattern:): a value in [−128, 127] whose two's-complement byte is the input, negative iff the byte is at least 0x80 |
| PcmBufferExtensions.Int8ToInt16Sample | ios/Noa/Noa/Util/AVAudioPCMBuffer+Extensions.swift:52-53 | The sample is the byte read as signed 8-bit times 256: zero low byte, within [−32768, 32512], negative iff the byte is at least 0x80 |
| PcmBufferExtensions.Int8ToInt16Inverse | ios/Noa/Noa/Util/AVAudioPCMBuffer+Extensions.swift:52-53 | The high byte of the sample's bit pattern is the original byte |
| PcmBufferExtensions.LittleEndianSample | ios/Noa/Noa/Util/AVAudioPCMBuffer+Extensions.swift:24-28 | The sample's bit pattern is low + 256·high |
| PcmBufferExtensions.Gated | ios/Noa/Noa/Util/AVAudioPCMBuffer+Extensions.swift:70 | A sample louder than the threshold is kept, any other becomes 0; GateProperties states its properties |
| PcmBufferExtensions.GateProperties | ios/Noa/Noa/Util/AVAudioPCMBuffer+Extensions.swift:70 | A gated sample is either kept or zero, never louder, and gating twice changes nothing more |
| PcmBufferExtensions.Compressed | ios/Noa/Noa/Util/AVAudioPCMBuffer+Extensions.swift:83-88 | A sample above the linear threshold gets magnitude threshold + excess / ratio with its sign; any other is kept; CompressionProperties states its properties |
| PcmBufferExtensions.CompressionProperties | ios/Noa/Noa/Util/AVAudioPCMBuffer+Extensions.swift:83-88 | With ratio ≥ 1 the compressor keeps the sign, never raises the magnitude, and keeps samples above the threshold above it |
| PcmBufferExtensions.PcmBuffer.Int16Buffer | ios/Noa/Noa/Util/AVAudioPCMBuffer+Extensions.swift:15-16 | A mono 16-bit buffer of the capacity, with no valid frames and no Float data |
| PcmBufferExtensions.PcmBuffer.FloatBuffer | ios/Noa/Noa/Util/AVAudioPCMBuffer+Extensions.swift:64-91 | A mono Float buffer holding the given samples, all valid |
| PcmBufferExtensions.PcmBuffer.ApplyRefinedNoiseGate | ios/Noa/Noa/Util/AVAudioPCMBuffer+Extensions.swift:64-73 | Without Float data nothing changes; otherwise each valid sample is gated and samples past the frame length are kept |
| PcmBufferExtensions.PcmBuffer.ApplyRefinedDynamicRangeCompression | ios/Noa/Noa/Util/AVAudioPCMBuffer+Extensions.swift:76-91 | Without Float data nothing changes; otherwise each valid sample above the threshold is compressed and the others kept |
| PcmBufferExtensions.PcmBuffer.ConvertToCMSampleBuffer | ios/Noa/Noa/Util/AVAudioPCMBuffer+Extensions.swift:93-162 | nil for a zero-length buffer or a failed CoreMedia call; otherwise one sample per valid frame at the buffer's rate, timed at the given timestamp or the host clock |
| PcmBufferExtensions.Int8Samples | ios/Noa/Noa/Util/AVAudioPCMBuffer+Extensions.swift:50-55 | One sample per byte, in order, each the signed byte times 256 |
| PcmBufferExtensions.Int8SamplesInjective | ios/Noa/Noa/Util/AVAudioPCMBuffer+Extensions.swift:50-55 | Two recordings with the same widened samples are the same recording |
| PcmBufferExtensions.FromMonoInt8Data | ios/Noa/Noa/Util/AVAudioPCMBuffer+Extensions.swift:36-60 | nil on a failed allocation; otherwise one valid frame per input byte, frame length equal to capacity, holding Int8Samples of the data |
| PcmBufferExtensions.Int16Samples | ios/Noa/Noa/Util/AVAudioPCMBuffer+Extensions.swift:16-28 | data.count / 2 samples, each a little-endian byte pair; a trailing odd byte is dropped |
| PcmBufferExtensions.CopyBytes | ios/Noa/Noa/Util/AVAudioPCMBuffer+Extensions.swift:24-28 | The destination holds the data's byte pairs as samples |
| PcmBufferExtensions.FromMonoInt16Data | ios/Noa/Noa/Util/AVAudioPCMBuffer+Extensions.swift:13-34 | nil on a failed allocation; otherwise data.count / 2 frames, all valid, holding the byte pairs; the gate and compressor, finding no Float data, change nothing |

## Left out

- CoreBluetooth, Foundation and Combine are not modelled as such. Platform calls become `Command` values and published values become `Event` values, both in logs; delegate callbacks are methods whose inputs are parameters. Main-queue delivery and `print` logging are left out.
- The repeating 5-second `Timer` of `startScan` is the method `Bluetooth.Manager.DiscoveryTimerFired`, and the clock is its `now` parameter.
- The assignments `peripheral.delegate = nil` (NewBluetoothManager.swift:194) and `peripheral.delegate = self` (line 379) are not modelled. They decide which peripheral's callbacks reach the manager at all. `Bluetooth.Manager.DidUpdateValue` therefore takes no peripheral: it describes a value from whichever peripheral the platform still delivers callbacks for.
- RSSI is an integer compared with −70. The `NSNumber` to `Double` conversion is left out.
- Bluetooth.Manager.Send: `maximumWriteValueLength(for: .withoutResponse)` is a parameter, required to be positive. The source uses this maximum for both write types, and so does the model. A zero maximum would loop forever in `writeData`.
- `send(text:)` (NewBluetoothManager.swift:158-162) is left out, because it only UTF-8-encodes the string before the data path.
- `quantizeColorsKMeans` (ColorQuantization.cpp:265-401) is left out:
  - it starts from a random assignment;
  - its distance subtracts in wrapping unsigned 64-bit arithmetic;
  - it can divide by the size of an empty cluster.
- ColorOutput.SetDarkestColorToBlackAndIndex0: the darkest index is a parameter. The float BT.601 `PaletteValue::luminance` (ColorQuantization.hpp:23-27) and the search over it (ColorQuantization.cpp:409-419) are left out.
- ColorOutput.ApplyColorsToPixelBuffer, ColorOutput.SetDarkestColorToBlackAndIndex0: their requires rule out inputs on which the source has undefined behaviour. These are the unchecked `palette[colorIdx]` for an index past the palette (ColorQuantization.cpp:492), writes to `palette[0]` and `palette[darkest]` on an empty palette, and `lut[(d<<4)|d]` past the 256-entry table for d ≥ 16. For a supported frame, `quantizeColors` returns a palette of `numColors` ≤ 16 entries and indices of its buckets, which meet the palette conditions.
- `CVPixelBuffer` locking, `CVPixelBufferGetBaseAddress` and its `nullptr` failure path are left out. The buffer is a byte array that is always present.
- The `k` field of `Pixel` is left out; nothing in `quantizeColors` sets or reads it.
- ColorQuantization.QuantizeColors requires:
  - width and height of at most 65536, because `Pixel` stores `uint16_t` coordinates;
  - a non-zero, even pixel count, because an odd count writes one nibble past the `width * height / 2` output bytes and an empty frame divides by zero;
  - a buffer that holds every row.
- ColorQuantization.ReadPixel: the default branch of the `Pixel` constructor (invalid format, uninitialised channels) is not modelled. `quantizeColors` rejects such formats before reading pixels.
- ColorQuantization.SortBucketByColorChannel: `std::sort` leaves the order of pixels with equal channel values unspecified. The model fixes one valid order, that of an insertion sort. Its own contract only promises "sorted on the channel" and "a permutation".
- ColorQuantization.QuantizeColors: the buckets, palette means and packed indices it promises are those for the insertion sort's tie order (`MedianCutFrom`). Another `std::sort` implementation may order tied pixels differently and so split a bucket differently. The structural properties are proved only for the insertion order, although their proofs use only sortedness and the permutation: 1 to numColors non-empty buckets holding every pixel once, palette entries that are bucket means, and each pixel carrying its bucket's index.
- ColorQuantization.MedianCut, ColorQuantization.ImageBuckets: the same holds for their `MedianCutFrom` results.
- ColorQuantization.MeanWithinRange: holds only while the `uint32_t` sums cannot wrap, for buckets of at most 16 843 009 pixels. Beyond that the model keeps the wrapped value, as the source does (`ColorQuantization.MeanColor`).
- The `assert`s on `numColors` and `bitDepth` are preconditions. Power-of-two `numColors` is a requirement, as the header documents.
- `URLSession` configuration, background sessions and the temporary file are left out (AIAssistant.swift:52-74). Whether the session uses a temporary file is a constructor input, and a failed write is a parameter.
- `JSONSerialization` is replaced by the abstract `ResponseBody`: not JSON, a JSON value that is not an object, or an object with optional error message, content and total tokens.
- Completion closures are call numbers, and calling one appends a `Delivery`. Task identifiers handed out by the session are parameters. As with Swift's subscript assignment (AIAssistant.swift:118, 257), storing a handler under an identifier already in the map replaces the handler stored there.
- The session-level challenge (AIAssistant.swift:202-209) and the stream and download task conversions (213-221) are left out, because they keep no state. So are `urlSessionDidFinishEvents` (198-200) and the response-header callback (285-295), which only log and allow.
- The API key and the HTTP request headers of `send` are left out.
- AIAssistant.Assistant.WillPerformRedirection: the new task is logged as `Redirect(newTask, oldTask)`, without the redirected `URLRequest` it carries. The platform's redirect `completionHandler` is never called in lines 241-263, and the model does not call it either. The move of the handler, which the source defers to the main queue, happens at once.
- The error values keep only their kind. `ClientSideNetworkError` drops the underlying `error` it carries (AIAssistant.swift:192, 279), and `DataFormatError` drops its message (line 111).
- The Float DSP of the noise gate and compressor works on real numbers, without rounding.
  - PcmBufferExtensions.PcmBuffer.ApplyRefinedDynamicRangeCompression: `pow(10.0, threshold / 20.0)` is replaced by the given linear threshold. In `fromMonoInt16Data` that threshold is a rounded decimal constant.
  - The 16-bit buffers built here have no Float data, so this value never affects them.
- PcmBufferExtensions.PcmBuffer.ApplyRefinedDynamicRangeCompression: requires `ratio != 0.0`. In Float arithmetic a zero ratio would give ±inf magnitudes, which are not modelled over the reals.
- Default argument values are not modelled; every argument is passed explicitly. These are `threshold: 0.02` of the noise gate, `threshold: 0.25, ratio: 2.0` of the compressor, `presentationTimeStamp: nil` of `convertToCMSampleBuffer`, and `response: false` of `send(data:on:response:)`.
- Only mono buffers are modelled; the per-channel loops run over one channel.
- Allocation failure of `AVAudioPCMBuffer` is a parameter. A missing `int16ChannelData` after a successful 16-bit allocation is not modelled.
- The results of the three CoreMedia calls in `convertToCMSampleBuffer` are parameters. The audio format description and the buffer contents beyond sample count, timescale and presentation time are left out.
