# GIFT-Grab frame distribution, modelled in Dafny

This project models two parts of GIFT-Grab's video-capture layer.

- **Frame distribution** (`gg::IObservable`). A frame source keeps an ordered
  list of observer references. `attach` appends an observer unless it is
  already in the list. `detach` erases an observer. `notify` calls `update`
  on every observer in list order. `attached` asks whether an observer is in
  the list. Module `Observers` (observers.dfy) holds the class `Observable`,
  whose `observers` field is the `_observers` vector. Beside it are the
  functions `AfterAttach`, `AfterDetach` and `Broadcast`, which give the list
  or the call trace that each operation produces, and the lemmas about them.
- **The NumPy frame view** (`VideoFrameNumPyWrapper`). This wrapper either
  borrows a `gg::VideoFrame` or creates and owns one. It copies the frame's
  specs into its own fields (`sync_specs`) and picks the shape and strides of
  the NumPy array over the frame's bytes (`stereo_data_as_ndarray`). Module
  `NumPyWrapper` (numpy_wrapper.dfy) holds the class `FrameView`. Module
  `Frames` (frames.dfy) holds an abstract `VideoFrame`: colour, columns,
  rows, the byte length of each stereo view, and a `deleted` flag that the
  wrapper's destructor sets. Module `Errors` (errors.dfy) names the
  exceptions: `gg::ObserverError`, `gg::BasicException` and
  `std::out_of_range`.

Observers are identified by their address, which is a `nat` here. A call
`observer->update(frame)` is recorded as an `Update(observer, frame)` in the
trace that `Notify` returns. The frame type is a type parameter.

The model follows the code where the intended contract says something else:

- Attaching an observer that is already attached does nothing and raises
  nothing. The intended contract calls this an attachment error.
- Detaching an observer that is not attached erases `end()`, which is
  undefined behaviour. So `Detach` requires the observer to be attached. The
  intended contract calls this a detachment error.
- Delivery order is list order. The intended contract leaves the order open.
- The guard `if (not attached(observer)) throw` after `push_back` can never
  fire. With no duplicates in the list, the guard after `erase` can never
  fire either. `Attach` and `Detach` keep both throw branches, and each
  proves that its result is `Pass`.

## Model

| member | source | states |
|---|---|---|
| `Observers.Find` | src/api/iobservable.cpp:53-57 | `std::find` returns the index of the first occurrence of the observer, or the list length (the end iterator) when the observer is absent |
| `Observers.Observable.Attached` | src/api/iobservable.cpp:53-57 | `attached(o)` is true exactly when `o` is in the list; it only reads |
| `Observers.Observable.Attach` | src/api/iobservable.cpp:16-25 | the new list is `AfterAttach(old list, o)`, `o` is attached, the no-duplicates invariant holds, and the "Could not attach observer" branch never raises |
| `Observers.AttachAppends` | src/api/iobservable.cpp:16-25 | after attach `o` is in the list; an absent `o` is appended at the end, one longer; the earlier entries are unchanged |
| `Observers.AttachAttachedIsNoOp` | src/api/iobservable.cpp:19 | attaching an observer that is already attached leaves the list unchanged |
| `Observers.AttachPreservesNoDuplicates` | src/api/iobservable.cpp:16-25 | attach keeps every observer at most once in the list |
| `Observers.DetachUndoesAttach` | src/api/iobservable.cpp:16-42 | for an absent observer, detach after attach gives back the original list |
| `Observers.Observable.Detach` | src/api/iobservable.cpp:27-42 | with `o` attached (required, because erasing `end()` is undefined), the new list is `AfterDetach(old list, o)`, `o` is no longer attached, the invariant holds, and the "Could not detach observer" branch never raises |
| `Observers.DetachRemovesOneOccurrence` | src/api/iobservable.cpp:33-39 | detach makes the list one shorter and removes exactly one occurrence of `o` from its multiset of elements |
| `Observers.DetachKeepsOrder` | src/api/iobservable.cpp:33-39 | with no duplicates, detach equals filtering `o` out, so the other observers keep their relative order |
| `Observers.DetachLeavesDetached` | src/api/iobservable.cpp:33-41 | with no duplicates, `o` is absent after detach and the list still has no duplicates |
| `Observers.WithoutMembers` | src/api/iobservable.cpp:33-39 | after filtering `o` out, an element is in the list exactly when it was there before and is not `o` |
| `Observers.Observable.Notify` | src/api/iobservable.cpp:44-51 | the calls made are exactly `Broadcast(observers, frame)`, and the list is not changed |
| `Observers.BroadcastInOrder` | src/api/iobservable.cpp:44-51 | one `update(frame)` call per list entry, in list order, always with the same frame |
| `Observers.BroadcastExactlyOnce` | src/api/iobservable.cpp:44-51 | with no duplicates, each attached observer receives the frame exactly once, and an observer that is not attached never receives it |
| `NumPyWrapper.FrameView.SyncSpecs` | src/python/pybind.cpp:200-207 | colour, cols, rows and stereo count equal the wrapped frame's; the data pointer refers to the wrapped frame; the data length is the length of view 0 times the stereo count |
| `Frames.UniformViewsTotal` | src/python/pybind.cpp:205 | when all views have the same length, the length of view 0 times the view count is the total byte length of all views |
| `NumPyWrapper.FrameView.Wrap` | src/python/pybind.cpp:76-81 | the pointer constructor wraps the given frame itself, with `_manage_frame` and `_manage_data` false, and its specs synced |
| `NumPyWrapper.FrameView.Copy` | src/python/pybind.cpp:89-94 | the copy constructor wraps a fresh copy of the frame, a different object with the same colour, size and view lengths; `_manage_frame` is true and `_manage_data` false |
| `NumPyWrapper.FrameView.Shaped` | src/python/pybind.cpp:104-110 | wraps a fresh mono frame of the given colour and size; `_manage_frame` is true and `_manage_data` false; stereo count 1 |
| `NumPyWrapper.FrameView.Stereo` | src/python/pybind.cpp:120-128 | wraps a fresh frame with the given number of equal views; `_manage_frame` is true and `_manage_data` false; the synced data length is the total of all views |
| `NumPyWrapper.FrameView.Placeholder` | src/python/pybind.cpp:137-143 | wraps a fresh frame of the given colour with no bound size, passing `manage_data` on to that frame; `_manage_frame` is true and `_manage_data` false |
| `NumPyWrapper.FrameView.Destroy` | src/python/pybind.cpp:145-148 | the destructor deletes the wrapped frame exactly when `_manage_frame` is set, and touches nothing otherwise |
| `NumPyWrapper.BorrowedFrameSurvives` | src/python/pybind.cpp:76-81 | wrapping a frame by pointer and destroying the wrapper leaves that frame alive |
| `NumPyWrapper.CopiedFrameIsReleased` | src/python/pybind.cpp:89-94 | a wrapper built by copying deletes its own copy on destruction and leaves the original alive |
| `NumPyWrapper.FrameView.StereoDataAsArray` | src/python/pybind.cpp:164-196 | the request succeeds exactly when the stereo index is valid and the request is flat or the colour is BGRA; structured BGRA gives shape `(rows, cols, 4)` and strides `(cols*4, 4, 1)`, including for a frame with zero rows or columns; structured non-BGRA raises `BasicException` whatever the index; flat gives shape `(data_length(i))` whatever the colour; an invalid stereo index otherwise raises `out_of_range`; every returned layout is C-contiguous with one-byte elements |
| `NumPyWrapper.RowMajorIsDense` | src/python/pybind.cpp:171-174 | in a C-contiguous byte layout with no empty axis, the first stride times the first extent is the element count, and the last element sits at the last byte |
| `NumPyWrapper.StructuredViewCoversFrame` | src/python/pybind.cpp:167-175 | for a non-empty BGRA frame the structured array has strides `(cols*4, 4, 1)` and holds `rows*cols*4` one-byte elements, the last at byte `rows*cols*4 - 1` |
| `NumPyWrapper.StructuredOffsetsDistinct` | src/python/pybind.cpp:171-174 | in the structured array of a BGRA frame, two different (row, column, channel) indices reach different bytes: no overlap |
| `NumPyWrapper.StructuredOffsetsCover` | src/python/pybind.cpp:171-174 | in the structured array of a BGRA frame, every byte below `rows*cols*4` is reached by some (row, column, channel) index within the shape: no gap |
| `NumPyWrapper.FlatViewCoversView` | src/python/pybind.cpp:185-188 | for a valid stereo index the flat array covers exactly `data_length(stereo_index)` bytes |

## Left out

- The mutex `_observers_lock` and the GIL release in `detach`: each operation is one sequential atomic step, with no concurrency.
- The bodies of the observers' `update`: each call is recorded in a trace. Exceptions inside `update` are left out too (`notify` is `noexcept`).
- The constructor of `gg::IObservable` lives in a header that is not part of this model, so the list is taken to start empty. Its destructor (src/api/iobservable.cpp:11-14) has an empty body and is not modelled.
- Observers.Observable.Detach: requires the observer to be attached, because the code then erases `end()`, which is undefined behaviour.
- The internals of `gg::VideoFrame` (byte-length formulas, allocation, copying of pixel data): the header and sources are not part of this model. Each constructor receives the byte length of each view as a parameter. A frame has at least one view, and `stereo_count()` is the number of views.
- NumPyWrapper.FrameView.Stereo: requires a stereo count of at least 1. What `gg::VideoFrame` does with a count of 0 is not part of this model.
- NumPyWrapper.FrameView.Placeholder: the placeholder frame is modelled with zero size and one view of zero bytes. Its real contents come from a `gg::VideoFrame` constructor that is not part of this model.
- NumPyWrapper.FrameView.Copy: the copied frame is modelled as owning its pixel data. The `gg::VideoFrame` copy constructor is not part of this model.
- The actual `py::array_t` construction, its `py::none()` base object and the pixel bytes behind `data()`: `StereoDataAsArray` returns the shape, the strides and the stereo view index instead.
- Fixed-width `size_t` arithmetic: integers are unbounded here. So the model does not capture the narrowing of shape entries to NumPy's signed extents (marked in the source as a shrinking conversion), the product `_frame->cols() * 4` for the row stride (src/python/pybind.cpp:172), or the product `data_length() * stereo_count()` in `sync_specs` (src/python/pybind.cpp:205), any of which can wrap around in the source.
- The `default:` branch of the colour switch: `ColourSpace` has only the three values BGRA, I420 and UYVY, and both non-BGRA values raise the same exception.
- Use of a frame after it has been deleted.
- Frames whose stereo views have different byte lengths are allowed. For such a frame the mirrored data length (view 0's length times the view count) is not the total of all views. That total is proved only for uniform views, which is what the stereo constructor builds.
- NumPyWrapper.FrameView.Wrap: the wrapped frame is a non-null reference. The source takes a raw pointer, and a null pointer would be dereferenced by `sync_specs`, which is undefined behaviour.
- pybind11 module registration, exception translation, enum exports and the `PYBIND11_OVERRIDE` trampolines: these are binding glue.
- The Blackmagic SDK source, the build script and the frame-saving test scripts: these are vendor plumbing, build configuration and hardware I/O.
