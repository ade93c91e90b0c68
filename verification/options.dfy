/**
 * The optional value shared by the three components: an absent edge or
 * distance (the sentinel NOPATH), a search that finds nothing (a null node
 * pointer), or an operation whose C++ behaviour is undefined.
 */
module Options {

  datatype Option<T> = None | Some(value: T)

}
