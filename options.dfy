/** The optional value shared by the modules: None stands for a Java null. */
module Options {

  datatype Option<T> = None | Some(value: T)

}
