/** A possibly absent value: the renderer's nullable `image3f*` texture pointers,
    and reads that would leave an image. */
module Optional {

  datatype Option<+T> = None | Some(value: T)
}
