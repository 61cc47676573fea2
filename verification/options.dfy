/** The optional-value wrapper used throughout the model: a present value or
    nothing, standing in for nullable pointers and `std::optional`. */
module Options {

  datatype Option<+T> = None | Some(value: T)
}
