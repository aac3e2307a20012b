/** The .NET exceptions that the modelled code throws or lets escape, as values. */
module Exceptions {

  datatype Exception =
    | ArgumentNull(paramName: string)        // System.ArgumentNullException
    | ArgumentOutOfRange(paramName: string)  // System.ArgumentOutOfRangeException
    | InvalidTopicName(topicName: string)    // Gruppo.SDK.Exceptions.InvalidTopicNameException
    | EndOfStream                            // System.IO.EndOfStreamException
    | IOError                                // System.IO.IOException (seek before begin, negative string length, write on a closed socket)
    | NullReference                          // System.NullReferenceException
    | BadSevenBitInt                         // System.FormatException from Read7BitEncodedInt
}
