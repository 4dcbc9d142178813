/** The one piece of the chat transport the core builds: an inline keyboard button. */
module Keyboard {

  /** `InlineKeyboardButton(text, callback_data=callbackData)`; a pressed button sends `callbackData` back. */
  datatype Button = Button(text: string, callbackData: string)
}
